/** The slab allocator of src/ui/allocator.rs: a region of `cap` slots
    reserved up front, of which the first `maxLen` have been handed out at
    least once.  Freed slots form a singly linked list threaded through the
    slots themselves, headed by `nextSlot` and ended by `usize::MAX`. */
module Allocator {
  import opened Common

  /** The end-of-list marker `usize::MAX`. */
  const NIL: nat := U64_MAX

  /** What a slot of the region holds: memory never written, a freed slot
      holding the index of the next free slot, or a live value. */
  datatype Slot<T> = Unwritten | Free(next: nat) | Used(value: T)

  /** `alloc` panics when the free list is empty and the region is full. */
  datatype AllocError = OutOfMemory

  /** The entries of `s` are pairwise different. */
  predicate Distinct(s: seq<nat>)
  {
    forall k, l :: 0 <= k < l < |s| ==> s[k] != s[l]
  }

  /** The head of a free list: its first index, or `NIL` when empty. */
  function Head(fl: seq<nat>): nat
  {
    if fl == [] then NIL else fl[0]
  }

  /** The slot invariant over the region `s`: `len <= max_len <= cap`; the
      free list `fl` holds exactly `maxLen - len` distinct indices below
      `maxLen`, headed by `nextSlot`, each slot on it linking to the next one
      (the last to `NIL`); every other slot below `maxLen` is live, no slot
      at or above `maxLen` has been written, and `live` is the set of live
      indices, of size `len`. */
  ghost predicate SlabValid<T>(s: seq<Slot<T>>, len: nat, maxLen: nat, nextSlot: nat,
                               fl: seq<nat>, live: set<nat>)
  {
    |s| < NIL &&
    len <= maxLen <= |s| &&
    |fl| == maxLen - len && |live| == len &&
    Distinct(fl) &&
    (forall k :: 0 <= k < |fl| ==> fl[k] < maxLen) &&
    nextSlot == Head(fl) &&
    (forall k :: 0 <= k < |fl| ==> s[fl[k]] == Free(Head(fl[k + 1..]))) &&
    (forall i :: 0 <= i < maxLen && i !in fl ==> s[i].Used?) &&
    (forall i :: maxLen <= i < |s| ==> s[i] == Unwritten) &&
    (forall i :: 0 <= i < |s| ==> (s[i].Used? <==> i in live)) &&
    (forall i :: i in live ==> i < |s|)
  }

  /** With an empty free list every slot below `maxLen` is live, so
      `len == max_len` (the source's debug assertion), and writing at
      `maxLen` extends the handed-out prefix by one live slot. */
  lemma ExtendHighWater<T>(s: seq<Slot<T>>, len: nat, maxLen: nat, live: set<nat>, value: T)
    requires SlabValid(s, len, maxLen, NIL, [], live)
    ensures len == maxLen
    ensures maxLen < |s| ==> SlabValid(s[maxLen := Used(value)], len + 1, maxLen + 1, NIL, [], live + {maxLen})
  {
    assert maxLen !in live;
  }

  /** Taking the head of a non-empty free list: the head slot links to the
      successor, which becomes the new head. */
  lemma PopFree<T>(s: seq<Slot<T>>, len: nat, maxLen: nat, fl: seq<nat>, live: set<nat>, value: T)
    requires SlabValid(s, len, maxLen, Head(fl), fl, live) && fl != []
    ensures fl[0] < maxLen && s[fl[0]] == Free(Head(fl[1..]))
    ensures SlabValid(s[fl[0] := Used(value)], len + 1, maxLen, Head(fl[1..]), fl[1..], live + {fl[0]})
  {
    var s' := s[fl[0] := Used(value)];
    var fl' := fl[1..];
    assert s[fl[0]] == Free(Head(fl[1..]));
    assert fl[0] !in live;
    forall k | 0 <= k < |fl'|
      ensures s'[fl'[k]] == Free(Head(fl'[k + 1..]))
    {
      assert fl'[k] == fl[k + 1] && fl'[k + 1..] == fl[k + 2..];
      assert s[fl[k + 1]] == Free(Head(fl[k + 2..]));
    }
    forall i | 0 <= i < maxLen && i !in fl'
      ensures s'[i].Used?
    {
      if i != fl[0] {
        assert i !in fl;
      }
    }
  }

  /** Freeing the live slot `idx`: it is below `maxLen` and off the free
      list, so it can be pushed onto the head of the list. */
  lemma PushFree<T>(s: seq<Slot<T>>, len: nat, maxLen: nat, fl: seq<nat>, live: set<nat>, idx: nat)
    requires SlabValid(s, len, maxLen, Head(fl), fl, live) && idx < |s| && s[idx].Used?
    ensures idx < maxLen && idx !in fl && idx in live && len > 0
    ensures SlabValid(s[idx := Free(Head(fl))], len - 1, maxLen, idx, [idx] + fl, live - {idx})
  {
    assert idx !in fl by {
      assert forall k :: 0 <= k < |fl| ==> s[fl[k]].Free?;
    }
    PushLinks(s, fl, idx);
    PushDistinct(fl, idx);
    PushUsed(s, maxLen, fl, idx);
    assert |live - {idx}| == len - 1;
  }

  /** After the push every slot below `maxLen` off the new list is still
      live. */
  lemma PushUsed<T>(s: seq<Slot<T>>, maxLen: nat, fl: seq<nat>, idx: nat)
    requires maxLen <= |s| && idx < |s|
    requires forall i :: 0 <= i < maxLen && i !in fl ==> s[i].Used?
    ensures var s', fl' := s[idx := Free(Head(fl))], [idx] + fl;
            forall i :: 0 <= i < maxLen && i !in fl' ==> s'[i].Used?
  {
    var s', fl' := s[idx := Free(Head(fl))], [idx] + fl;
    forall i | 0 <= i < maxLen && i !in fl'
      ensures s'[i].Used?
    {
      assert i !in fl;
    }
  }

  /** Pushing an index that is not on a list of distinct indices keeps
      them distinct. */
  lemma PushDistinct(fl: seq<nat>, idx: nat)
    requires Distinct(fl) && idx !in fl
    ensures Distinct([idx] + fl)
  {
    var fl' := [idx] + fl;
    forall k, l | 0 <= k < l < |fl'| ensures fl'[k] != fl'[l] {
      assert fl'[l] == fl[l - 1];
      if k > 0 {
        assert fl'[k] == fl[k - 1];
      }
    }
  }

  /** The links of the free list after pushing `idx` onto its head. */
  lemma PushLinks<T>(s: seq<Slot<T>>, fl: seq<nat>, idx: nat)
    requires idx < |s| && idx !in fl && forall k :: 0 <= k < |fl| ==> fl[k] < |s|
    requires forall k :: 0 <= k < |fl| ==> s[fl[k]] == Free(Head(fl[k + 1..]))
    ensures var s', fl' := s[idx := Free(Head(fl))], [idx] + fl;
            forall k :: 0 <= k < |fl'| ==> s'[fl'[k]] == Free(Head(fl'[k + 1..]))
  {
    var s' := s[idx := Free(Head(fl))];
    var fl' := [idx] + fl;
    forall k | 0 <= k < |fl'|
      ensures s'[fl'[k]] == Free(Head(fl'[k + 1..]))
    {
      if k > 0 {
        assert fl'[k] == fl[k - 1] && fl'[k + 1..] == fl[k..];
        assert s[fl[k - 1]] == Free(Head(fl[k..]));
      } else {
        assert fl'[1..] == fl;
      }
    }
  }

  /** Writing through a live pointer replaces the value and keeps the
      slot live, so the invariant is untouched. */
  lemma OverwriteLive<T>(s: seq<Slot<T>>, len: nat, maxLen: nat, nextSlot: nat, fl: seq<nat>,
                         live: set<nat>, idx: nat, value: T)
    requires SlabValid(s, len, maxLen, nextSlot, fl, live) && idx < |s| && s[idx].Used?
    ensures SlabValid(s[idx := Used(value)], len, maxLen, nextSlot, fl, live)
  {
    assert forall k :: 0 <= k < |fl| ==> s[fl[k]].Free?;
  }

  class SlabAllocator<T> {
    var slots: array<Slot<T>>
    /** Memory is reserved for `cap` elements. */
    var cap: nat
    /** The number of slots holding a live value. */
    var len: nat
    /** The number of slots handed out at least once. */
    var maxLen: nat
    /** The head of the free list, or `NIL`. */
    var nextSlot: nat
    /** The free list as the sequence of indices it links, head first. */
    ghost var freeList: seq<nat>
    /** The indices of the live slots. */
    ghost var live: set<nat>

    ghost predicate Valid()
      reads this, slots
    {
      slots.Length == cap && SlabValid(slots[..], len, maxLen, nextSlot, freeList, live)
    }

    /** `SlabAllocator::new`: an empty region of `cap` slots with an empty
        free list.  The source's `Layout::array` panics long before `cap`
        reaches `usize::MAX`. */
    constructor (cap: nat)
      requires cap < NIL
      ensures Valid() && fresh(slots)
      ensures this.cap == cap && len == 0 && maxLen == 0 && nextSlot == NIL
    {
      slots := new Slot<T>[cap](_ => Unwritten);
      this.cap := cap;
      len := 0;
      maxLen := 0;
      nextSlot := NIL;
      freeList := [];
      live := {};
    }

    /** `alloc`: takes the head of the free list, or the slot at `maxLen`
        when the list is empty; out of memory when neither exists. */
    method Alloc(value: T) returns (r: Result<nat, AllocError>)
      requires Valid()
      modifies this, slots
      ensures Valid() && slots == old(slots) && cap == old(cap)
      ensures r.Err? <==> old(freeList) == [] && old(maxLen) >= cap
      ensures r.Err? ==> unchanged(this) && unchanged(slots)
      ensures r.Ok? ==> r.value < cap && !old(slots[r.value]).Used? && slots[r.value] == Used(value)
      ensures r.Ok? ==> len == old(len) + 1 && live == old(live) + {r.value}
      ensures r.Ok? ==> forall i :: 0 <= i < cap && i != r.value ==> slots[i] == old(slots[i])
      ensures r.Ok? && old(freeList) == [] ==>
        r.value == old(maxLen) && maxLen == old(maxLen) + 1 && freeList == [] && nextSlot == NIL
      ensures r.Ok? && old(freeList) != [] ==>
        r.value == old(nextSlot) && old(slots[r.value]) == Free(nextSlot) &&
        maxLen == old(maxLen) && freeList == old(freeList)[1..]
    {
      if nextSlot == NIL {
        if maxLen >= cap {
          return Err(OutOfMemory);
        }
        var idx := AllocAtHighWater(value);
        r := Ok(idx);
      } else {
        var idx := AllocFromFreeList(value);
        r := Ok(idx);
      }
    }

    /** The branch of `alloc` with an empty free list: the slot at `maxLen`. */
    method AllocAtHighWater(value: T) returns (idx: nat)
      requires Valid() && nextSlot == NIL && maxLen < cap
      modifies this, slots
      ensures Valid() && slots == old(slots) && cap == old(cap) && old(freeList) == []
      ensures idx == old(maxLen) && old(slots[idx]) == Unwritten && slots[..] == old(slots[..])[idx := Used(value)]
      ensures maxLen == old(maxLen) + 1 && len == old(len) + 1 && live == old(live) + {idx}
      ensures freeList == [] && nextSlot == NIL
    {
      ExtendHighWater(slots[..], len, maxLen, live, value);
      idx := maxLen;
      slots[idx] := Used(value);
      len := len + 1;
      maxLen := maxLen + 1;
      live := live + {idx};
    }

    /** The branch of `alloc` that takes the head of the free list. */
    method AllocFromFreeList(value: T) returns (idx: nat)
      requires Valid() && nextSlot != NIL
      modifies this, slots
      ensures Valid() && slots == old(slots) && cap == old(cap) && old(freeList) != []
      ensures idx == old(nextSlot) && idx < cap && old(slots[idx]) == Free(nextSlot)
      ensures slots[..] == old(slots[..])[idx := Used(value)]
      ensures maxLen == old(maxLen) && freeList == old(freeList)[1..]
      ensures len == old(len) + 1 && live == old(live) + {idx}
    {
      PopFree(slots[..], len, maxLen, freeList, live, value);
      idx := nextSlot;
      nextSlot := slots[idx].next;
      slots[idx] := Used(value);
      len := len + 1;
      live := live + {idx};
      freeList := freeList[1..];
    }

    /** `dealloc`: drops the live value at `idx` and pushes `idx` onto the
        head of the free list; `maxLen` never shrinks.  The source only
        frees pointers it handed out, so the slot must be live. */
    method Dealloc(idx: nat) returns (dropped: T)
      requires Valid() && idx < slots.Length && slots[idx].Used?
      modifies this, slots
      ensures Valid() && slots == old(slots) && cap == old(cap)
      ensures dropped == old(slots[idx]).value
      ensures old(len) > 0 && len == old(len) - 1 && maxLen == old(maxLen)
      ensures freeList == [idx] + old(freeList) && nextSlot == idx
      ensures idx in old(live) && live == old(live) - {idx}
      ensures slots[idx] == Free(old(nextSlot))
      ensures forall i :: 0 <= i < cap && i != idx ==> slots[i] == old(slots[i])
    {
      PushFree(slots[..], len, maxLen, freeList, live, idx);
      dropped := slots[idx].value;
      len := len - 1;
      slots[idx] := Free(nextSlot);
      nextSlot := idx;
      freeList := [idx] + freeList;
      live := live - {idx};
    }
  }

  /** LIFO reuse: allocating right after freeing slot `idx` hands out `idx`
      again, and the free list is back to what it was. */
  method DeallocThenAlloc<T>(a: SlabAllocator<T>, idx: nat, value: T) returns (r: Result<nat, AllocError>)
    requires a.Valid() && idx < a.slots.Length && a.slots[idx].Used?
    modifies a, a.slots
    ensures a.Valid() && a.slots == old(a.slots) && r == Ok(idx) && a.slots[idx] == Used(value)
    ensures a.len == old(a.len) && a.maxLen == old(a.maxLen)
    ensures a.freeList == old(a.freeList) && a.nextSlot == old(a.nextSlot) && a.live == old(a.live)
  {
    var _ := a.Dealloc(idx);
    r := a.Alloc(value);
    assert a.live == old(a.live) - {idx} + {idx};
  }
}
