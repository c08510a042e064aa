/** `BucketArray` (src/bucket_array.rs): a container of equally sized
    buckets that never moves an inserted element.  Each bucket keeps an
    `occupied` flag per slot, a count of occupied slots and a scan start
    below which every slot is occupied; the array keeps its full and its
    unfull buckets in two lists and hands out (bucket index, slot index)
    handles. */
module Buckets {
  import opened Common

  /** `Bucket<T>`: `elements[s]` holds a value exactly when `occupied[s]`. */
  datatype Bucket<T> = Bucket(index: nat, occupied: seq<bool>, elements: seq<Option<T>>,
                              lowest: nat, count: nat)

  /** The number of `true` flags. */
  function CountTrue(s: seq<bool>): (n: nat)
    ensures n <= |s|
  {
    if s == [] then 0 else CountTrue(s[..|s| - 1]) + (if s[|s| - 1] then 1 else 0)
  }

  /** Flipping one flag changes the count by one. */
  lemma {:induction false} CountTrueUpdate(s: seq<bool>, i: nat, v: bool)
    requires i < |s|
    ensures CountTrue(s[i := v]) == CountTrue(s) - (if s[i] then 1 else 0) + (if v then 1 else 0)
  {
    var n := |s| - 1;
    if i < n {
      CountTrueUpdate(s[..n], i, v);
      assert s[i := v][..n] == s[..n][i := v];
    } else {
      assert s[i := v][..n] == s[..n];
    }
  }

  /** All flags set exactly when the count is the length. */
  lemma {:induction false} CountTrueFull(s: seq<bool>)
    ensures CountTrue(s) == |s| <==> forall i :: 0 <= i < |s| ==> s[i]
  {
    if s != [] {
      CountTrueFull(s[..|s| - 1]);
      assert forall i :: 0 <= i < |s| - 1 ==> s[..|s| - 1][i] == s[i];
    }
  }

  /** The invariant every bucket of an array with buckets of `size` slots
      keeps (the comment on the fields and lines 60-100 of the source). */
  predicate BucketValid<T>(b: Bucket<T>, size: nat)
  {
    |b.occupied| == size && |b.elements| == size && b.lowest <= size &&
    b.count == CountTrue(b.occupied) &&
    (forall s :: 0 <= s < b.lowest ==> b.occupied[s]) &&
    (forall s :: 0 <= s < size ==> (b.occupied[s] <==> b.elements[s].Some?))
  }

  /** `Bucket::new`: every slot free. */
  function NewBucket<T>(index: nat, size: nat): (b: Bucket<T>)
    ensures BucketValid(b, size) && b.index == index && b.count == 0
    ensures forall s :: 0 <= s < size ==> !b.occupied[s]
  {
    var flags := seq(size, _ => false);
    CountTrueFull(flags);
    AllFalseCount(flags);
    Bucket(index, flags, seq(size, _ => None), 0, 0)
  }

  lemma {:induction false} AllFalseCount(s: seq<bool>)
    requires forall i :: 0 <= i < |s| ==> !s[i]
    ensures CountTrue(s) == 0
  {
    if s != [] {
      AllFalseCount(s[..|s| - 1]);
    }
  }

  /** `Bucket::is_full`. */
  predicate IsFull<T>(b: Bucket<T>)
  {
    b.count == |b.occupied|
  }

  /** `Bucket::insert`: asserts a free slot exists, then scans from
      `lowest` for the first free slot, fills it and bumps `lowest` by one
      (not to past the slot: every slot below the new `lowest` is still
      occupied, since the scan skipped only occupied slots). */
  method BucketInsert<T>(b: Bucket<T>, x: T, ghost size: nat) returns (r: Result<(Bucket<T>, nat), BucketError>)
    requires BucketValid(b, size)
    ensures r.Ok? <==> b.count < size
    ensures r.Err? ==> r.error == BucketFullError
    ensures r.Ok? ==>
              var (nb, slot) := r.value;
              BucketValid(nb, size) && nb.index == b.index && slot < size && b.lowest <= slot &&
              !b.occupied[slot] && (forall s :: b.lowest <= s < slot ==> b.occupied[s]) &&
              nb.occupied == b.occupied[slot := true] && nb.elements == b.elements[slot := Some(x)] &&
              nb.count == b.count + 1
  {
    if !(b.count < |b.elements|) {
      return Err(BucketFullError);
    }
    FreeSlotExists(b, size);
    var i := b.lowest;
    while i < |b.elements|
      invariant b.lowest <= i <= size
      invariant forall s :: b.lowest <= s < i ==> b.occupied[s]
      invariant exists j :: i <= j < size && !b.occupied[j]
    {
      if !b.occupied[i] {
        CountTrueUpdate(b.occupied, i, true);
        var nb := b.(occupied := b.occupied[i := true], elements := b.elements[i := Some(x)],
                     lowest := b.lowest + 1, count := b.count + 1);
        return Ok((nb, i));
      }
      i := i + 1;
    }
    assert false;
  }

  /** A bucket that is not full has a free slot at or above `lowest`. */
  lemma FreeSlotExists<T>(b: Bucket<T>, size: nat)
    requires BucketValid(b, size) && b.count < size
    ensures exists j :: b.lowest <= j < size && !b.occupied[j]
  {
    CountTrueFull(b.occupied);
    var j :| 0 <= j < size && !b.occupied[j];
  }

  datatype BucketError = BucketFullError

  /** `Bucket::remove` of an occupied slot: takes the element out, frees the
      slot and lowers `lowest` to it if it was above. */
  method BucketRemove<T>(b: Bucket<T>, slot: nat, ghost size: nat) returns (nb: Bucket<T>, x: T)
    requires BucketValid(b, size) && slot < size && b.occupied[slot]
    ensures BucketValid(nb, size) && nb.index == b.index
    ensures Some(x) == b.elements[slot]
    ensures nb.occupied == b.occupied[slot := false] && nb.elements == b.elements[slot := None]
    ensures nb.count == b.count - 1 && !IsFull(nb)
  {
    x := b.elements[slot].value;
    var lowest := b.lowest;
    if lowest > slot {
      lowest := slot;
    }
    CountTrueUpdate(b.occupied, slot, false);
    nb := b.(occupied := b.occupied[slot := false], elements := b.elements[slot := None],
             lowest := lowest, count := b.count - 1);
  }

  /** The values in the occupied slots among the first `upto` slots, in
      slot order. */
  function OccupiedValues<T>(b: Bucket<T>, upto: nat): (vs: seq<T>)
    requires upto <= |b.occupied| && upto <= |b.elements|
    requires forall s :: 0 <= s < upto ==> (b.occupied[s] <==> b.elements[s].Some?)
    ensures |vs| == CountTrue(b.occupied[..upto])
  {
    if upto == 0 then []
    else
      assert b.occupied[..upto][..upto - 1] == b.occupied[..upto - 1];
      OccupiedValues(b, upto - 1) + (if b.occupied[upto - 1] then [b.elements[upto - 1].value] else [])
  }

  /** The values of a valid bucket, in slot order. */
  function Values<T>(b: Bucket<T>, size: nat): (vs: seq<T>)
    requires BucketValid(b, size)
    ensures |vs| == b.count
  {
    assert b.occupied[..size] == b.occupied;
    OccupiedValues(b, size)
  }

  /** The values of a sequence of valid buckets, bucket after bucket. */
  function Elements<T>(bs: seq<Bucket<T>>, size: nat): seq<T>
    requires forall b | b in bs :: BucketValid(b, size)
  {
    if bs == [] then [] else Elements(bs[..|bs| - 1], size) + Values(bs[|bs| - 1], size)
  }

  /** A value is among the occupied values of the first `upto` slots
      exactly when one of those slots holds it. */
  lemma {:induction false} OccupiedValuesHas<T>(b: Bucket<T>, upto: nat, v: T)
    requires upto <= |b.occupied| && upto <= |b.elements|
    requires forall s :: 0 <= s < upto ==> (b.occupied[s] <==> b.elements[s].Some?)
    ensures v in OccupiedValues(b, upto) <==> exists s :: 0 <= s < upto && b.elements[s] == Some(v)
  {
    if upto > 0 {
      OccupiedValuesHas(b, upto - 1, v);
      if b.elements[upto - 1] == Some(v) {
        assert v in OccupiedValues(b, upto);
      }
    }
  }

  /** A value is in the `foreach` walk of valid buckets exactly when some
      slot of some bucket holds it. */
  lemma {:induction false} ElementsHas<T>(bs: seq<Bucket<T>>, size: nat, v: T)
    requires forall b | b in bs :: BucketValid(b, size)
    ensures v in Elements(bs, size) <==>
            exists k, s :: 0 <= k < |bs| && 0 <= s < |bs[k].elements| && bs[k].elements[s] == Some(v)
  {
    if bs != [] {
      var n := |bs| - 1;
      assert bs[n] in bs;
      ElementsHas(bs[..n], size, v);
      assert bs[n].occupied[..size] == bs[n].occupied;
      OccupiedValuesHas(bs[n], size, v);
      if exists k, s :: 0 <= k < |bs| && 0 <= s < |bs[k].elements| && bs[k].elements[s] == Some(v) {
        var k, s :| 0 <= k < |bs| && 0 <= s < |bs[k].elements| && bs[k].elements[s] == Some(v);
        if k < n {
          assert bs[..n][k].elements[s] == Some(v);
        }
      }
      if exists k, s :: 0 <= k < n && 0 <= s < |bs[..n][k].elements| && bs[..n][k].elements[s] == Some(v) {
        var k, s :| 0 <= k < n && 0 <= s < |bs[..n][k].elements| && bs[..n][k].elements[s] == Some(v);
        assert bs[k].elements[s] == Some(v);
      }
    }
  }

  /** A value some handle finds is among the elements. */
  lemma FoundIsElement<T>(bs: seq<Bucket<T>>, size: nat, h: Handle, v: T)
    requires forall b | b in bs :: BucketValid(b, size)
    requires LookupIn(bs, h) == Some(v)
    ensures v in Elements(bs, size)
  {
    ElementsHas(bs, size, v);
    var b := BucketWithIndex(bs, h.bucket).value;
    var k :| 0 <= k < |bs| && bs[k] == b;
    assert bs[k].elements[h.slot] == Some(v);
  }

  /** The sum of the occupied counts. */
  function TotalCount<T>(bs: seq<Bucket<T>>): nat
  {
    if bs == [] then 0 else TotalCount(bs[..|bs| - 1]) + bs[|bs| - 1].count
  }

  lemma {:induction false} TotalCountConcat<T>(a: seq<Bucket<T>>, b: seq<Bucket<T>>)
    ensures TotalCount(a + b) == TotalCount(a) + TotalCount(b)
  {
    if b != [] {
      TotalCountConcat(a, b[..|b| - 1]);
      assert (a + b)[..|a + b| - 1] == a + b[..|b| - 1];
    } else {
      assert a + b == a;
    }
  }

  lemma {:induction false} ElementsConcat<T>(a: seq<Bucket<T>>, b: seq<Bucket<T>>, size: nat)
    requires forall x | x in a + b :: BucketValid(x, size)
    ensures Elements(a + b, size) == Elements(a, size) + Elements(b, size)
  {
    if b == [] {
      assert a + b == a;
    } else {
      ElementsSnoc(a, b, size);
      ElementsConcat(a, b[..|b| - 1], size);
      assert Elements(a + b, size) ==
             Elements(a, size) + Elements(b[..|b| - 1], size) + Values(b[|b| - 1], size);
    }
  }

  /** `Elements` of `a + b` peels off the last bucket of `b`. */
  lemma ElementsSnoc<T>(a: seq<Bucket<T>>, b: seq<Bucket<T>>, size: nat)
    requires b != [] && forall x | x in a + b :: BucketValid(x, size)
    ensures forall x | x in a + b[..|b| - 1] :: BucketValid(x, size)
    ensures Elements(a + b, size) == Elements(a + b[..|b| - 1], size) + Values(b[|b| - 1], size)
    ensures forall x | x in b :: BucketValid(x, size)
    ensures Elements(b, size) == Elements(b[..|b| - 1], size) + Values(b[|b| - 1], size)
  {
    assert forall x | x in b :: x in a + b;
    assert (a + b)[..|a + b| - 1] == a + b[..|b| - 1];
    assert forall x | x in a + b[..|b| - 1] :: x in a + b;
  }

  /** As many values as the counts say. */
  lemma {:induction false} ElementsLength<T>(bs: seq<Bucket<T>>, size: nat)
    requires forall b | b in bs :: BucketValid(b, size)
    ensures |Elements(bs, size)| == TotalCount(bs)
  {
    if bs != [] {
      ElementsLength(bs[..|bs| - 1], size);
    }
  }

  /** The bucket indices, in list order. */
  function Indices<T>(bs: seq<Bucket<T>>): (r: seq<nat>)
    ensures |r| == |bs| && forall k :: 0 <= k < |bs| ==> r[k] == bs[k].index
  {
    seq(|bs|, k requires 0 <= k < |bs| => bs[k].index)
  }

  /** 0, 1, ..., n - 1. */
  function Upto(n: nat): (r: seq<nat>)
    ensures |r| == n && forall k :: 0 <= k < n ==> r[k] == k
  {
    seq(n, k => k)
  }

  lemma {:induction false} UptoCount(n: nat, v: nat)
    ensures multiset(Upto(n))[v] == if v < n then 1 else 0
  {
    if n > 0 {
      assert Upto(n) == Upto(n - 1) + [n - 1];
      UptoCount(n - 1, v);
    }
  }

  /** No two buckets share an index. */
  predicate Distinct<T>(bs: seq<Bucket<T>>)
  {
    forall i, j :: 0 <= i < j < |bs| ==> bs[i].index != bs[j].index
  }

  /** Indices that are a permutation of 0..n-1 are distinct. */
  lemma PermutationDistinct<T>(bs: seq<Bucket<T>>)
    requires multiset(Indices(bs)) == multiset(Upto(|bs|))
    ensures Distinct(bs)
    ensures forall k :: 0 <= k < |bs| ==> bs[k].index < |bs|
  {
    var ix := Indices(bs);
    forall i, j | 0 <= i < j < |bs| ensures bs[i].index != bs[j].index {
      if bs[i].index == bs[j].index {
        var v := bs[i].index;
        assert ix == ix[..i] + [v] + ix[i + 1..j] + [v] + ix[j + 1..];
        assert multiset(ix)[v] >= 2;
        UptoCount(|bs|, v);
      }
    }
    forall k | 0 <= k < |bs| ensures bs[k].index < |bs| {
      assert ix[k] in multiset(ix);
      UptoCount(|bs|, bs[k].index);
    }
  }

  /** The first bucket with index `i`. */
  function BucketWithIndex<T>(bs: seq<Bucket<T>>, i: nat): (r: Option<Bucket<T>>)
    ensures r.Some? ==> r.value in bs && r.value.index == i
    ensures r.None? ==> forall k :: 0 <= k < |bs| ==> bs[k].index != i
  {
    if bs == [] then None
    else if bs[0].index == i then Some(bs[0])
    else
      var r := BucketWithIndex(bs[1..], i);
      assert forall k :: 1 <= k < |bs| ==> bs[k] == bs[1..][k - 1];
      r
  }

  /** With distinct indices the bucket with index `i` is the one at any
      position holding that index. */
  lemma {:induction false} BucketWithIndexAt<T>(bs: seq<Bucket<T>>, k: nat)
    requires Distinct(bs) && k < |bs|
    ensures BucketWithIndex(bs, bs[k].index) == Some(bs[k])
  {
    if k > 0 && bs[0].index != bs[k].index {
      BucketWithIndexAt(bs[1..], k - 1);
    }
  }

  /** Two lists with distinct indices that hold the same buckets with index
      `i` agree on it. */
  lemma SameBucketWithIndex<T>(bs: seq<Bucket<T>>, cs: seq<Bucket<T>>, i: nat)
    requires Distinct(bs) && Distinct(cs)
    requires forall b :: b in bs && b.index == i <==> b in cs && b.index == i
    ensures BucketWithIndex(bs, i) == BucketWithIndex(cs, i)
  {
    var r := BucketWithIndex(bs, i);
    if r.Some? {
      var k :| 0 <= k < |bs| && bs[k] == r.value;
      var k' :| 0 <= k' < |cs| && cs[k'] == r.value;
      BucketWithIndexAt(bs, k);
      BucketWithIndexAt(cs, k');
    }
  }

  lemma IndicesConcat<T>(a: seq<Bucket<T>>, b: seq<Bucket<T>>)
    ensures Indices(a + b) == Indices(a) + Indices(b)
  {
  }

  /** Where the last bucket of `bs` sits in a reordering `cs`, and what is
      left of both without it. */
  lemma PickLast<T>(bs: seq<Bucket<T>>, cs: seq<Bucket<T>>) returns (j: nat)
    requires multiset(bs) == multiset(cs) && bs != []
    ensures j < |cs| && cs[j] == bs[|bs| - 1]
    ensures cs == cs[..j] + [cs[j]] + cs[j + 1..]
    ensures multiset(bs[..|bs| - 1]) == multiset(cs[..j] + cs[j + 1..])
  {
    var n := |bs| - 1;
    var x := bs[n];
    assert bs == bs[..n] + [x];
    assert x in multiset(cs);
    j :| 0 <= j < |cs| && cs[j] == x;
    var pre, post := cs[..j], cs[j + 1..];
    assert cs == pre + [x] + post;
    RemoveOne(bs[..n], pre, post, x);
  }

  /** Taking the same element out of two equal bags leaves equal bags. */
  lemma RemoveOne<T>(a: seq<T>, pre: seq<T>, post: seq<T>, x: T)
    requires multiset(a + [x]) == multiset(pre + [x] + post)
    ensures multiset(a) == multiset(pre + post)
  {
    calc {
      multiset(a);
      (multiset(a) + multiset{x}) - multiset{x};
      multiset(a + [x]) - multiset{x};
      multiset(pre + [x] + post) - multiset{x};
      (multiset(pre + post) + multiset{x}) - multiset{x};
      multiset(pre + post);
    }
  }

  /** Reordering the buckets keeps the bag of indices. */
  lemma {:induction false} PermutedIndices<T>(bs: seq<Bucket<T>>, cs: seq<Bucket<T>>)
    requires multiset(bs) == multiset(cs)
    ensures multiset(Indices(bs)) == multiset(Indices(cs))
  {
    if bs != [] {
      var n := |bs| - 1;
      var j := PickLast(bs, cs);
      var rest := cs[..j] + cs[j + 1..];
      PermutedIndices(bs[..n], rest);
      var x := cs[j];
      assert bs == bs[..n] + [x];
      IndicesConcat(bs[..n], [x]);
      IndicesConcat(cs[..j] + [x], cs[j + 1..]);
      IndicesConcat(cs[..j], [x]);
      IndicesConcat(cs[..j], cs[j + 1..]);
      var a, m, c := Indices(cs[..j]), Indices([x]), Indices(cs[j + 1..]);
      calc {
        multiset(Indices(bs));
        multiset(Indices(bs[..n])) + multiset(m);
        multiset(a + c) + multiset(m);
        multiset(a) + multiset(m) + multiset(c);
        multiset(a + m + c);
        multiset(Indices(cs));
      }
    }
  }

  /** Reordering the buckets keeps the total count. */
  lemma {:induction false} PermutedTotalCount<T>(bs: seq<Bucket<T>>, cs: seq<Bucket<T>>)
    requires multiset(bs) == multiset(cs)
    ensures TotalCount(bs) == TotalCount(cs)
  {
    if bs != [] {
      var n := |bs| - 1;
      var j := PickLast(bs, cs);
      var rest := cs[..j] + cs[j + 1..];
      PermutedTotalCount(bs[..n], rest);
      TotalCountConcat(cs[..j] + [cs[j]], cs[j + 1..]);
      TotalCountConcat(cs[..j], [cs[j]]);
      TotalCountConcat(cs[..j], cs[j + 1..]);
      assert TotalCount([cs[j]]) == cs[j].count by {
        assert [cs[j]][..0] == [];
      }
    }
  }

  /** Replacing a bucket by one with the same index changes only the lookups
      of that index. */
  lemma ReplaceBucket<T>(bs: seq<Bucket<T>>, p: nat, nb: Bucket<T>)
    requires Distinct(bs) && p < |bs| && nb.index == bs[p].index
    ensures Indices(bs[p := nb]) == Indices(bs) && Distinct(bs[p := nb])
    ensures forall i :: BucketWithIndex(bs[p := nb], i) == if i == nb.index then Some(nb) else BucketWithIndex(bs, i)
  {
    var cs := bs[p := nb];
    forall i ensures BucketWithIndex(cs, i) == if i == nb.index then Some(nb) else BucketWithIndex(bs, i) {
      if i == nb.index {
        BucketWithIndexAt(cs, p);
      } else {
        forall b ensures b in bs && b.index == i <==> b in cs && b.index == i {
          if b in bs && b.index == i {
            var k :| 0 <= k < |bs| && bs[k] == b;
            assert cs[k] == b;
          }
          if b in cs && b.index == i {
            var k :| 0 <= k < |cs| && cs[k] == b;
            assert bs[k] == b;
          }
        }
        SameBucketWithIndex(bs, cs, i);
      }
    }
  }

  /** Appending a bucket whose index is the bucket count keeps the indices
      a permutation of 0..n-1 and adds the lookups of that index only. */
  lemma AppendBucket<T>(bs: seq<Bucket<T>>, nb: Bucket<T>)
    requires multiset(Indices(bs)) == multiset(Upto(|bs|)) && nb.index == |bs|
    ensures multiset(Indices(bs + [nb])) == multiset(Upto(|bs| + 1))
    ensures forall i :: BucketWithIndex(bs + [nb], i) == if i == nb.index then Some(nb) else BucketWithIndex(bs, i)
  {
    var cs := bs + [nb];
    AppendIndices(bs, nb);
    PermutationDistinct(bs);
    PermutationDistinct(cs);
    forall i ensures BucketWithIndex(cs, i) == if i == nb.index then Some(nb) else BucketWithIndex(bs, i) {
      if i == nb.index {
        BucketWithIndexAt(cs, |bs|);
      } else {
        SameBucketWithIndex(bs, cs, i);
      }
    }
  }

  lemma AppendIndices<T>(bs: seq<Bucket<T>>, nb: Bucket<T>)
    requires multiset(Indices(bs)) == multiset(Upto(|bs|)) && nb.index == |bs|
    ensures multiset(Indices(bs + [nb])) == multiset(Upto(|bs| + 1))
  {
    IndicesConcat(bs, [nb]);
    assert Upto(|bs| + 1) == Upto(|bs|) + [|bs|];
  }

  /** A reordering of buckets with distinct indices keeps every lookup. */
  lemma PermutedLookups<T>(bs: seq<Bucket<T>>, cs: seq<Bucket<T>>)
    requires multiset(bs) == multiset(cs)
    requires multiset(Indices(bs)) == multiset(Upto(|bs|))
    ensures multiset(Indices(cs)) == multiset(Upto(|cs|)) && TotalCount(bs) == TotalCount(cs)
    ensures forall i :: BucketWithIndex(bs, i) == BucketWithIndex(cs, i)
    ensures forall h :: LookupIn(bs, h) == LookupIn(cs, h)
  {
    assert |bs| == |multiset(bs)| == |multiset(cs)| == |cs|;
    PermutedIndices(bs, cs);
    PermutedTotalCount(bs, cs);
    PermutationDistinct(bs);
    PermutationDistinct(cs);
    forall i ensures BucketWithIndex(bs, i) == BucketWithIndex(cs, i) {
      forall b ensures b in bs && b.index == i <==> b in cs && b.index == i {
        assert b in bs <==> b in multiset(bs);
        assert b in cs <==> b in multiset(cs);
      }
      SameBucketWithIndex(bs, cs, i);
    }
  }

  /** `BucketPtr<T>` without the raw pointer: which bucket, which slot. */
  datatype Handle = Handle(bucket: nat, slot: nat)

  /** The element a handle designates in a list of buckets, if any. */
  function LookupIn<T>(bs: seq<Bucket<T>>, h: Handle): Option<T>
  {
    match BucketWithIndex(bs, h.bucket)
    case None => None
    case Some(b) => if h.slot < |b.elements| then b.elements[h.slot] else None
  }

  /** Appending a bucket with no element and a fresh index changes no lookup. */
  lemma AppendEmptyBucket<T>(bs: seq<Bucket<T>>, nb: Bucket<T>)
    requires multiset(Indices(bs)) == multiset(Upto(|bs|)) && nb.index == |bs|
    requires forall s :: 0 <= s < |nb.elements| ==> nb.elements[s].None?
    ensures multiset(Indices(bs + [nb])) == multiset(Upto(|bs| + 1))
    ensures forall h :: LookupIn(bs + [nb], h) == LookupIn(bs, h)
  {
    AppendBucket(bs, nb);
    PermutationDistinct(bs);
    assert BucketWithIndex(bs, |bs|).None?;
  }

  /** Replacing a bucket by one with the same index and as many slots changes
      only the lookups of that bucket, to its new slots. */
  lemma ReplaceBucketLookups<T>(bs: seq<Bucket<T>>, p: nat, nb: Bucket<T>)
    requires Distinct(bs) && p < |bs| && nb.index == bs[p].index
    ensures Indices(bs[p := nb]) == Indices(bs) && Distinct(bs[p := nb])
    ensures forall h :: LookupIn(bs[p := nb], h) ==
              if h.bucket == nb.index then (if h.slot < |nb.elements| then nb.elements[h.slot] else None)
              else LookupIn(bs, h)
  {
    ReplaceBucket(bs, p, nb);
  }

  /** Replacing one bucket changes the total count by the difference. */
  lemma TotalCountUpdate<T>(bs: seq<Bucket<T>>, p: nat, nb: Bucket<T>)
    requires p < |bs|
    ensures TotalCount(bs[p := nb]) == TotalCount(bs) - bs[p].count + nb.count
  {
    assert bs == bs[..p] + [bs[p]] + bs[p + 1..];
    assert bs[p := nb] == bs[..p] + [nb] + bs[p + 1..];
    TotalCountConcat(bs[..p] + [bs[p]], bs[p + 1..]);
    TotalCountConcat(bs[..p], [bs[p]]);
    TotalCountConcat(bs[..p] + [nb], bs[p + 1..]);
    TotalCountConcat(bs[..p], [nb]);
    assert TotalCount([nb]) == nb.count by {
      assert [nb][..0] == [];
    }
    assert TotalCount([bs[p]]) == bs[p].count by {
      assert [bs[p]][..0] == [];
    }
  }

  /** `Vec::swap_remove`: the last element takes the place of the removed one. */
  function SwapRemove<T>(s: seq<T>, i: nat): (r: seq<T>)
    requires i < |s|
    ensures |r| == |s| - 1
    ensures multiset(r) + multiset{s[i]} == multiset(s)
  {
    var last := |s| - 1;
    if i == last then
      assert s == s[..last] + [s[last]];
      s[..last]
    else
      assert s == s[..i] + [s[i]] + s[i + 1..last] + [s[last]];
      assert s[i := s[last]][..last] == s[..i] + [s[last]] + s[i + 1..last];
      s[i := s[last]][..last]
  }

  datatype InsertError = ZeroSizedBuckets
  datatype RemoveError = BucketNotFound | SlotOutOfRange

  /** The first element of `s` that satisfies `f`. */
  function FirstMatch<T>(s: seq<T>, f: T -> bool): (r: Option<T>)
    ensures r.None? <==> forall k :: 0 <= k < |s| ==> !f(s[k])
    ensures r.Some? ==> exists k :: 0 <= k < |s| && s[k] == r.value && f(s[k]) &&
                                  forall j :: 0 <= j < k ==> !f(s[j])
  {
    if s == [] then None
    else if f(s[0]) then Some(s[0])
    else
      var r := FirstMatch(s[1..], f);
      assert forall k :: 1 <= k < |s| ==> s[k] == s[1..][k - 1];
      r
  }

  /** Scanning a prefix that holds no match and then `t` finds what `t` finds. */
  lemma FirstMatchConcat<T>(s: seq<T>, t: seq<T>, f: T -> bool)
    requires forall k :: 0 <= k < |s| ==> !f(s[k])
    ensures FirstMatch(s + t, f) == FirstMatch(t, f)
  {
    if s != [] {
      assert (s + t)[0] == s[0];
      assert (s + t)[1..] == s[1..] + t;
      FirstMatchConcat(s[1..], t, f);
    } else {
      assert s + t == t;
    }
  }

  /** The invariant of a `BucketArray` over its two lists: every bucket is
      valid and sits in the list matching its fullness, the bucket indices are
      0..n-1 in some order, and `len` is the number of occupied slots. */
  ghost predicate ValidLists<T>(full: seq<Bucket<T>>, unfull: seq<Bucket<T>>, size: nat, len: nat)
  {
    (forall b | b in full :: BucketValid(b, size) && IsFull(b)) &&
    (forall b | b in unfull :: BucketValid(b, size) && !IsFull(b)) &&
    multiset(Indices(full + unfull)) == multiset(Upto(|full + unfull|)) &&
    len == TotalCount(full + unfull)
  }

  /** A valid unfull bucket has room. */
  lemma UnfullHasRoom<T>(b: Bucket<T>, size: nat)
    requires BucketValid(b, size) && !IsFull(b)
    ensures b.count < size
  {
  }

  /** Opening a new bucket (index = bucket count) when no bucket has room keeps
      the invariant and every lookup. */
  lemma OpenBucket<T>(full: seq<Bucket<T>>, size: nat, len: nat)
    requires ValidLists(full, [], size, len) && size > 0
    ensures ValidLists(full, [NewBucket(|full|, size)], size, len)
    ensures forall h :: LookupIn(full + [NewBucket(|full|, size)], h) == LookupIn(full + [], h)
  {
    var e: Bucket<T> := NewBucket(|full|, size);
    assert full + [] == full;
    AppendEmptyBucket(full, e);
    TotalCountConcat(full, [e]);
    assert TotalCount([e]) == 0 by {
      assert [e][..0] == [];
    }
  }

  /** Filling slot `slot` of the last unfull bucket keeps the bucket indices
      and adds one to the count; the handle of that slot goes from nothing to
      `x`, and no other handle changes. */
  lemma FillLastInPlace<T>(full: seq<Bucket<T>>, unfull: seq<Bucket<T>>, size: nat, len: nat,
                           nb: Bucket<T>, slot: nat, x: T)
    requires ValidLists(full, unfull, size, len) && unfull != []
    requires var b := unfull[|unfull| - 1];
             nb.index == b.index && slot < |b.occupied| && slot < |b.elements| && !b.occupied[slot] &&
             nb.elements == b.elements[slot := Some(x)] && nb.count == b.count + 1
    ensures var all2 := full + unfull[|unfull| - 1 := nb];
            multiset(Indices(all2)) == multiset(Upto(|all2|)) && TotalCount(all2) == len + 1 &&
            LookupIn(full + unfull, Handle(nb.index, slot)).None? &&
            LookupIn(all2, Handle(nb.index, slot)) == Some(x) &&
            forall h :: h != Handle(nb.index, slot) ==> LookupIn(all2, h) == LookupIn(full + unfull, h)
  {
    var last := |unfull| - 1;
    var all1 := full + unfull;
    var p := |full| + last;
    assert all1[p] == unfull[last];
    assert unfull[last] in unfull;
    PermutationDistinct(all1);
    ReplaceBucketLookups(all1, p, nb);
    TotalCountUpdate(all1, p, nb);
    BucketWithIndexAt(all1, p);
    assert full + unfull[last := nb] == all1[p := nb];
  }

  /** Moving the last bucket of the unfull list to the end of the full list
      reorders the buckets. */
  lemma MoveLastToFull<T>(full: seq<Bucket<T>>, u: seq<Bucket<T>>)
    requires u != []
    ensures multiset(full + u) == multiset(full + [u[|u| - 1]] + u[..|u| - 1])
  {
    var last := |u| - 1;
    assert u == u[..last] + [u[last]];
    assert full + u == full + u[..last] + [u[last]];
  }

  /** `insert` after the slot is filled: the bucket moves to the full list when
      it became full, and the invariant holds again with one more element. */
  lemma FillLast<T>(full: seq<Bucket<T>>, unfull: seq<Bucket<T>>, size: nat, len: nat,
                    nb: Bucket<T>, slot: nat, x: T, full': seq<Bucket<T>>, unfull': seq<Bucket<T>>)
    requires ValidLists(full, unfull, size, len) && unfull != []
    requires var b := unfull[|unfull| - 1];
             BucketValid(nb, size) && nb.index == b.index && slot < |b.occupied| && slot < |b.elements| &&
             !b.occupied[slot] && nb.elements == b.elements[slot := Some(x)] && nb.count == b.count + 1
    requires IsFull(nb) ==> full' == full + [nb] && unfull' == unfull[..|unfull| - 1]
    requires !IsFull(nb) ==> full' == full && unfull' == unfull[|unfull| - 1 := nb]
    ensures ValidLists(full', unfull', size, len + 1)
    ensures LookupIn(full + unfull, Handle(nb.index, slot)).None?
    ensures LookupIn(full' + unfull', Handle(nb.index, slot)) == Some(x)
    ensures forall h :: h != Handle(nb.index, slot) ==> LookupIn(full' + unfull', h) == LookupIn(full + unfull, h)
  {
    var last := |unfull| - 1;
    FillLastInPlace(full, unfull, size, len, nb, slot, x);
    var u := unfull[last := nb];
    var all2 := full + u;
    if IsFull(nb) {
      MoveLastToFull(full, u);
      assert u[..last] == unfull[..last];
      PermutedLookups(all2, full' + unfull');
      forall b | b in unfull' ensures BucketValid(b, size) && !IsFull(b) {
        assert b in unfull;
      }
    } else {
      forall b | b in unfull' ensures BucketValid(b, size) && !IsFull(b) {
        var k :| 0 <= k < |unfull'| && unfull'[k] == b;
        if k != last {
          assert b in unfull;
        }
      }
    }
  }

  /** The whole of `insert` on the lists: opening a bucket when no bucket
      has room, then filling a slot of the last unfull bucket, adds exactly
      the new handle's element. */
  lemma InsertLists<T>(full: seq<Bucket<T>>, unfull: seq<Bucket<T>>, size: nat, len: nat, open: seq<Bucket<T>>,
                       nb: Bucket<T>, slot: nat, x: T, full': seq<Bucket<T>>, unfull': seq<Bucket<T>>)
    requires ValidLists(full, unfull, size, len) && size > 0
    requires open == if unfull == [] then [NewBucket(|full|, size)] else unfull
    requires var b := open[|open| - 1];
             BucketValid(nb, size) && nb.index == b.index && slot < |b.occupied| && slot < |b.elements| &&
             !b.occupied[slot] && nb.elements == b.elements[slot := Some(x)] && nb.count == b.count + 1
    requires IsFull(nb) ==> full' == full + [nb] && unfull' == open[..|open| - 1]
    requires !IsFull(nb) ==> full' == full && unfull' == open[|open| - 1 := nb]
    ensures ValidLists(full', unfull', size, len + 1)
    ensures LookupIn(full + unfull, Handle(nb.index, slot)).None?
    ensures LookupIn(full' + unfull', Handle(nb.index, slot)) == Some(x)
    ensures forall h :: h != Handle(nb.index, slot) ==> LookupIn(full' + unfull', h) == LookupIn(full + unfull, h)
    ensures x in Elements(full' + unfull', size)
  {
    if unfull == [] {
      OpenBucket(full, size, len);
    }
    FillLast(full, open, size, len, nb, slot, x, full', unfull');
    FoundIsElement(full' + unfull', size, Handle(nb.index, slot), x);
  }

  /** The steps of `insert` on the full and unfull lists: returns the new
      lists and the handle of the filled slot. */
  method InsertInto<T>(full: seq<Bucket<T>>, unfull: seq<Bucket<T>>, size: nat, ghost len: nat, x: T)
    returns (r: Result<(seq<Bucket<T>>, seq<Bucket<T>>, Handle), InsertError>)
    requires ValidLists(full, unfull, size, len)
    ensures r.Ok? <==> size > 0
    ensures r.Ok? ==>
              var (full', unfull', h) := r.value;
              ValidLists(full', unfull', size, len + 1) && h.slot < size &&
              LookupIn(full + unfull, h).None? && LookupIn(full' + unfull', h) == Some(x) &&
              (forall g :: g != h ==> LookupIn(full' + unfull', g) == LookupIn(full + unfull, g)) &&
              x in Elements(full' + unfull', size)
  {
    var open := unfull;
    if open == [] {
      open := [NewBucket(|full| + |unfull|, size)];
    } else {
      UnfullHasRoom(open[|open| - 1], size);
    }
    var last := |open| - 1;
    var ins := BucketInsert(open[last], x, size);
    if ins.Err? {
      return Err(ZeroSizedBuckets);
    }
    var (nb, slot) := ins.value;
    var full', unfull' := full, open;
    if nb.count == |nb.occupied| {
      full' := full + [nb];
      unfull' := open[..last];
    } else {
      unfull' := open[last := nb];
    }
    InsertLists(full, unfull, size, len, open, nb, slot, x, full', unfull');
    r := Ok((full', unfull', Handle(nb.index, slot)));
  }

  /** Writing `v` into one slot of the bucket at position `p` keeps the
      bucket indices; the handle of that slot goes from its old content to
      `v`, and no other handle changes. */
  lemma SlotUpdate<T>(bs: seq<Bucket<T>>, p: nat, nb: Bucket<T>, slot: nat, v: Option<T>)
    requires multiset(Indices(bs)) == multiset(Upto(|bs|)) && p < |bs|
    requires nb.index == bs[p].index && slot < |bs[p].elements| && nb.elements == bs[p].elements[slot := v]
    ensures multiset(Indices(bs[p := nb])) == multiset(Upto(|bs|))
    ensures TotalCount(bs[p := nb]) == TotalCount(bs) - bs[p].count + nb.count
    ensures LookupIn(bs, Handle(nb.index, slot)) == bs[p].elements[slot]
    ensures LookupIn(bs[p := nb], Handle(nb.index, slot)) == v
    ensures forall h :: h != Handle(nb.index, slot) ==> LookupIn(bs[p := nb], h) == LookupIn(bs, h)
  {
    PermutationDistinct(bs);
    ReplaceBucketLookups(bs, p, nb);
    TotalCountUpdate(bs, p, nb);
    BucketWithIndexAt(bs, p);
  }

  /** `remove` from the unfull bucket at position `i`: the bucket stays in
      place and the invariant holds with one element less. */
  lemma RemoveFromUnfull<T>(full: seq<Bucket<T>>, unfull: seq<Bucket<T>>, size: nat, len: nat,
                            i: nat, nb: Bucket<T>, slot: nat)
    requires ValidLists(full, unfull, size, len) && i < |unfull|
    requires BucketValid(nb, size) && !IsFull(nb) && nb.index == unfull[i].index && slot < |unfull[i].elements|
    requires nb.elements == unfull[i].elements[slot := None] && nb.count + 1 == unfull[i].count
    ensures len > 0 && ValidLists(full, unfull[i := nb], size, len - 1)
    ensures LookupIn(full + unfull, Handle(nb.index, slot)) == unfull[i].elements[slot]
    ensures LookupIn(full + unfull[i := nb], Handle(nb.index, slot)).None?
    ensures forall h :: h != Handle(nb.index, slot) ==> LookupIn(full + unfull[i := nb], h) == LookupIn(full + unfull, h)
  {
    var all := full + unfull;
    var p := |full| + i;
    assert all[p] == unfull[i];
    assert full + unfull[i := nb] == all[p := nb];
    SlotUpdate(all, p, nb, slot, None);
    forall b | b in unfull[i := nb] ensures BucketValid(b, size) && !IsFull(b) {
      var k :| 0 <= k < |unfull| && unfull[i := nb][k] == b;
      if k != i {
        assert b in unfull;
      }
    }
  }

  /** `remove` from the full bucket at position `i` before the bucket moves:
      the list with the bucket replaced in place and that list reordered by
      moving the bucket to the end of the unfull list. */
  lemma RemoveFromFullReorders<T>(full: seq<Bucket<T>>, unfull: seq<Bucket<T>>, i: nat, nb: Bucket<T>)
    requires i < |full|
    ensures multiset((full + unfull)[i := nb]) == multiset(SwapRemove(full, i) + (unfull + [nb]))
  {
    var rest := SwapRemove(full, i);
    assert (full + unfull)[i := nb] == full[i := nb] + unfull;
    SwapRemoveReplace(full, i, nb);
    assert multiset(rest + (unfull + [nb])) == multiset(rest) + multiset(unfull) + multiset{nb};
  }

  /** `remove` from the full bucket at position `i`: the bucket leaves the full
      list by `swap_remove` and goes to the end of the unfull list, and the
      invariant holds with one element less. */
  lemma RemoveFromFull<T>(full: seq<Bucket<T>>, unfull: seq<Bucket<T>>, size: nat, len: nat,
                          i: nat, nb: Bucket<T>, slot: nat)
    requires ValidLists(full, unfull, size, len) && i < |full|
    requires BucketValid(nb, size) && !IsFull(nb) && nb.index == full[i].index && slot < |full[i].elements|
    requires nb.elements == full[i].elements[slot := None] && nb.count + 1 == full[i].count
    ensures len > 0 && ValidLists(SwapRemove(full, i), unfull + [nb], size, len - 1)
    ensures LookupIn(full + unfull, Handle(nb.index, slot)) == full[i].elements[slot]
    ensures LookupIn(SwapRemove(full, i) + (unfull + [nb]), Handle(nb.index, slot)).None?
    ensures forall h :: h != Handle(nb.index, slot) ==>
              LookupIn(SwapRemove(full, i) + (unfull + [nb]), h) == LookupIn(full + unfull, h)
  {
    var all := full + unfull;
    assert all[i] == full[i];
    SlotUpdate(all, i, nb, slot, None);
    RemoveFromFullReorders(full, unfull, i, nb);
    var moved := SwapRemove(full, i) + (unfull + [nb]);
    PermutedLookups(all[i := nb], moved);
    assert forall h :: LookupIn(moved, h) == LookupIn(all[i := nb], h);
    SwapRemoveReplace(full, i, nb);
  }

  /** Overwriting position `i` with `v` holds what `swap_remove` of `i`
      leaves, plus `v`; and `swap_remove` keeps only elements of `s`. */
  lemma SwapRemoveReplace<T>(s: seq<T>, i: nat, v: T)
    requires i < |s|
    ensures multiset(s[i := v]) == multiset(SwapRemove(s, i)) + multiset{v}
    ensures forall b | b in SwapRemove(s, i) :: b in s
  {
    assert s == s[..i] + [s[i]] + s[i + 1..];
    assert s[i := v] == s[..i] + [v] + s[i + 1..];
    forall b | b in SwapRemove(s, i) ensures b in s {
      assert b in multiset(SwapRemove(s, i));
    }
  }

  lemma NoBucketWithIndex<T>(bs: seq<Bucket<T>>, i: nat)
    requires forall k :: 0 <= k < |bs| ==> bs[k].index != i
    ensures BucketWithIndex(bs, i).None?
  {
  }

  /** The occupied values of the first `i` slots come first among those of
      the first `n`. */
  lemma {:induction false} OccupiedPrefix<T>(b: Bucket<T>, i: nat, n: nat)
    requires i <= n <= |b.occupied| && n <= |b.elements|
    requires forall s :: 0 <= s < n ==> (b.occupied[s] <==> b.elements[s].Some?)
    ensures OccupiedValues(b, i) <= OccupiedValues(b, n)
  {
    if i < n {
      OccupiedPrefix(b, i, n - 1);
    }
  }

  /** The values of the first `k` buckets come first. */
  lemma ElementsPrefix<T>(bs: seq<Bucket<T>>, k: nat, size: nat)
    requires k <= |bs| && forall b | b in bs :: BucketValid(b, size)
    ensures Elements(bs[..k], size) <= Elements(bs, size)
  {
    assert bs == bs[..k] + bs[k..];
    ElementsConcat(bs[..k], bs[k..], size);
  }

  /** One more bucket adds its values. */
  lemma ElementsStep<T>(bs: seq<Bucket<T>>, k: nat, size: nat)
    requires k < |bs| && forall b | b in bs :: BucketValid(b, size)
    ensures Elements(bs[..k + 1], size) == Elements(bs[..k], size) + Values(bs[k], size)
  {
    assert bs[..k + 1][..k] == bs[..k];
  }

  /** What `FirstMatch` finds in a prefix it finds in the whole. */
  lemma FirstMatchPrefixOf<T>(p: seq<T>, s: seq<T>, f: T -> bool)
    requires p <= s && FirstMatch(p, f).Some?
    ensures FirstMatch(s, f) == FirstMatch(p, f)
  {
    if !f(p[0]) {
      assert p[1..] <= s[1..];
      FirstMatchPrefixOf(p[1..], s[1..], f);
    }
  }

  /** No match in either part, no match in the whole. */
  lemma FirstMatchNoneConcat<T>(s: seq<T>, t: seq<T>, f: T -> bool)
    requires FirstMatch(s, f).None? && FirstMatch(t, f).None?
    ensures FirstMatch(s + t, f).None?
  {
    FirstMatchConcat(s, t, f);
  }

  /** `BucketArray<T>`. */
  class BucketArray<T> {
    var bucketSize: nat
    var len: nat
    var fullBuckets: seq<Bucket<T>>
    var unfullBuckets: seq<Bucket<T>>

    /** Full buckets first, then the unfull ones: the order `foreach` and
        `find` walk them in. */
    function All(): seq<Bucket<T>>
      reads this
    {
      fullBuckets + unfullBuckets
    }

    ghost predicate Valid()
      reads this
    {
      ValidLists(fullBuckets, unfullBuckets, bucketSize, len)
    }

    /** The element behind a handle. */
    function Lookup(h: Handle): Option<T>
      reads this
    {
      LookupIn(All(), h)
    }

    /** The values in `foreach` order. */
    function Contents(): seq<T>
      reads this
      requires Valid()
    {
      Elements(All(), bucketSize)
    }

    /** The two views of the array agree: a value is visited by `foreach`
        exactly when some handle designates it. */
    lemma ContentsAreLookups(v: T)
      requires Valid()
      ensures v in Contents() <==> exists h :: Lookup(h) == Some(v)
    {
      var bs := All();
      ElementsHas(bs, bucketSize, v);
      PermutationDistinct(bs);
      if v in Contents() {
        var k, s :| 0 <= k < |bs| && 0 <= s < |bs[k].elements| && bs[k].elements[s] == Some(v);
        BucketWithIndexAt(bs, k);
        assert Lookup(Handle(bs[k].index, s)) == Some(v);
      }
      if exists h :: Lookup(h) == Some(v) {
        var h :| Lookup(h) == Some(v);
        FoundIsElement(bs, bucketSize, h, v);
      }
    }

    /** `BucketArray::new`: no buckets, nothing stored. */
    constructor (bucketSize: nat)
      ensures Valid() && this.bucketSize == bucketSize && len == 0
      ensures fullBuckets == [] && unfullBuckets == []
      ensures forall h :: Lookup(h).None?
    {
      this.bucketSize := bucketSize;
      fullBuckets := [];
      unfullBuckets := [];
      len := 0;
    }

    /** `len`: the number of stored elements, which is the length of the
        `foreach` walk. */
    function Len(): (n: nat)
      reads this
      requires Valid()
      ensures n == |Contents()|
    {
      ElementsLength(All(), bucketSize);
      len
    }

    /** `BucketArray::insert`: opens a bucket with the next index when no
        bucket has room, fills a slot of the last unfull bucket and moves that
        bucket to the full list once it is full.  With zero-sized buckets the
        bucket's own insert panics. */
    method Insert(x: T) returns (r: Result<Handle, InsertError>)
      requires Valid()
      modifies this
      ensures Valid() && bucketSize == old(bucketSize)
      ensures r.Ok? <==> bucketSize > 0
      ensures r.Err? ==> len == old(len) && fullBuckets == old(fullBuckets) && unfullBuckets == old(unfullBuckets)
      ensures r.Ok? ==> len == old(len) + 1 && r.value.slot < bucketSize
      ensures r.Ok? ==> old(Lookup(r.value)).None? && Lookup(r.value) == Some(x)
      ensures r.Ok? ==> forall h :: h != r.value ==> Lookup(h) == old(Lookup(h))
      ensures r.Ok? ==> x in Contents()
    {
      var res := InsertInto(fullBuckets, unfullBuckets, bucketSize, len, x);
      if res.Err? {
        return Err(res.error);
      }
      var (full, unfull, h) := res.value;
      fullBuckets := full;
      unfullBuckets := unfull;
      len := len + 1;
      r := Ok(h);
    }

    /** `BucketArray::remove`: looks for the handle's bucket among the unfull
        buckets, then among the full ones; a full bucket that loses an element
        moves to the unfull list.  An unknown bucket index panics, and so does
        a slot index past the bucket; a free slot is undefined behaviour in the
        source, which callers rule out by removing only live handles. */
    method Remove(h: Handle) returns (r: Result<T, RemoveError>)
      requires Valid()
      requires BucketWithIndex(All(), h.bucket).Some? && h.slot < bucketSize ==> Lookup(h).Some?
      modifies this
      ensures Valid() && bucketSize == old(bucketSize)
      ensures r.Ok? <==> old(Lookup(h)).Some?
      ensures r.Ok? ==> old(Lookup(h)) == Some(r.value) && Lookup(h).None? && len == old(len) - 1
      ensures r.Ok? ==> forall g :: g != h ==> Lookup(g) == old(Lookup(g))
      ensures r.Err? ==> len == old(len) && fullBuckets == old(fullBuckets) && unfullBuckets == old(unfullBuckets)
      ensures r.Err? ==> (r.error == BucketNotFound <==> old(BucketWithIndex(All(), h.bucket)).None?)
    {
      var i := 0;
      while i < |unfullBuckets|
        invariant i <= |unfullBuckets|
        invariant forall k :: 0 <= k < i ==> unfullBuckets[k].index != h.bucket
      {
        if unfullBuckets[i].index == h.bucket {
          r := RemoveInPlace(|fullBuckets| + i, h);
          return;
        }
        i := i + 1;
      }
      i := 0;
      while i < |fullBuckets|
        invariant i <= |fullBuckets|
        invariant forall k :: 0 <= k < i ==> fullBuckets[k].index != h.bucket
      {
        if fullBuckets[i].index == h.bucket {
          r := RemoveInPlace(i, h);
          return;
        }
        i := i + 1;
      }
      assert forall k :: 0 <= k < |All()| ==> All()[k].index != h.bucket by {
        forall k | 0 <= k < |All()| ensures All()[k].index != h.bucket {
          if k >= |fullBuckets| {
            assert All()[k] == unfullBuckets[k - |fullBuckets|];
          }
        }
      }
      NoBucketWithIndex(All(), h.bucket);
      return Err(BucketNotFound);
    }

    /** The body of `remove` once the bucket is found at position `p` of
        `All()`: the bucket's own `remove`, then the move of a bucket that was
        full. */
    method RemoveInPlace(p: nat, h: Handle) returns (r: Result<T, RemoveError>)
      requires Valid() && p < |All()| && All()[p].index == h.bucket
      requires h.slot < bucketSize ==> Lookup(h).Some?
      modifies this
      ensures Valid() && bucketSize == old(bucketSize)
      ensures old(BucketWithIndex(All(), h.bucket)).Some?
      ensures r.Ok? <==> old(Lookup(h)).Some?
      ensures r.Ok? ==> old(Lookup(h)) == Some(r.value) && Lookup(h).None? && len == old(len) - 1
      ensures r.Ok? ==> forall g :: g != h ==> Lookup(g) == old(Lookup(g))
      ensures r.Err? ==> r.error == SlotOutOfRange
      ensures r.Err? ==> len == old(len) && fullBuckets == old(fullBuckets) && unfullBuckets == old(unfullBuckets)
    {
      PermutationDistinct(All());
      BucketWithIndexAt(All(), p);
      var b := All()[p];
      if h.slot >= |b.elements| {
        return Err(SlotOutOfRange);
      }
      if p >= |fullBuckets| {
        var i := p - |fullBuckets|;
        assert b == unfullBuckets[i] && b in unfullBuckets;
        var nb, x := BucketRemove(b, h.slot, bucketSize);
        RemoveFromUnfull(fullBuckets, unfullBuckets, bucketSize, len, i, nb, h.slot);
        unfullBuckets := unfullBuckets[i := nb];
        len := len - 1;
        return Ok(x);
      } else {
        assert b == fullBuckets[p] && b in fullBuckets;
        var nb, x := BucketRemove(b, h.slot, bucketSize);
        RemoveFromFull(fullBuckets, unfullBuckets, bucketSize, len, p, nb, h.slot);
        fullBuckets := SwapRemove(fullBuckets, p);
        unfullBuckets := unfullBuckets + [nb];
        len := len - 1;
        return Ok(x);
      }
    }

    /** `BucketArray::foreach`: the values `f` is called on, in call order —
        every slot of the full buckets (whose occupancy the source asserts),
        then the occupied slots of the unfull buckets. */
    method Foreach() returns (visited: seq<T>)
      requires Valid()
      ensures visited == Contents()
    {
      var inFull := VisitBuckets(fullBuckets, bucketSize, true);
      var inUnfull := VisitBuckets(unfullBuckets, bucketSize, false);
      ElementsConcat(fullBuckets, unfullBuckets, bucketSize);
      visited := inFull + inUnfull;
    }

    /** `BucketArray::find`: the first value in `foreach` order that
        satisfies `f`. */
    method Find(f: T -> bool) returns (r: Option<T>)
      requires Valid()
      ensures r == FirstMatch(Contents(), f)
    {
      ElementsConcat(fullBuckets, unfullBuckets, bucketSize);
      r := FindInBuckets(fullBuckets, bucketSize, true, f);
      if r.Some? {
        FirstMatchPrefixOf(Elements(fullBuckets, bucketSize), Contents(), f);
        return;
      }
      FirstMatchConcat(Elements(fullBuckets, bucketSize), Elements(unfullBuckets, bucketSize), f);
      r := FindInBuckets(unfullBuckets, bucketSize, false, f);
    }
  }

  /** One of the two walks of `foreach`: over full buckets (`full`) every slot,
      after asserting it is occupied, else only the occupied slots. */
  method VisitBuckets<T>(bs: seq<Bucket<T>>, size: nat, full: bool) returns (visited: seq<T>)
    requires forall b | b in bs :: BucketValid(b, size) && (full ==> IsFull(b))
    ensures visited == Elements(bs, size)
  {
    visited := [];
    for k := 0 to |bs|
      invariant visited == Elements(bs[..k], size)
    {
      assert bs[k] in bs;
      var vs := VisitSlots(bs[k], size, full);
      ElementsStep(bs, k, size);
      visited := visited + vs;
    }
    assert bs[..|bs|] == bs;
  }

  /** The slot loop of `foreach` over one bucket. */
  method VisitSlots<T>(b: Bucket<T>, size: nat, full: bool) returns (visited: seq<T>)
    requires BucketValid(b, size) && (full ==> IsFull(b))
    ensures visited == Values(b, size)
  {
    CountTrueFull(b.occupied);
    visited := [];
    for i := 0 to size
      invariant visited == OccupiedValues(b, i)
    {
      if full {
        assert b.occupied[i];
        visited := visited + [b.elements[i].value];
      } else if b.occupied[i] {
        visited := visited + [b.elements[i].value];
      }
    }
  }

  /** One of the two walks of `find`, as `VisitBuckets` but stopping at the
      first value that satisfies `f`. */
  method FindInBuckets<T>(bs: seq<Bucket<T>>, size: nat, full: bool, f: T -> bool) returns (r: Option<T>)
    requires forall b | b in bs :: BucketValid(b, size) && (full ==> IsFull(b))
    ensures r == FirstMatch(Elements(bs, size), f)
  {
    for k := 0 to |bs|
      invariant FirstMatch(Elements(bs[..k], size), f).None?
    {
      assert bs[k] in bs;
      r := FindInSlots(bs[k], size, full, f);
      ElementsStep(bs, k, size);
      ElementsPrefix(bs, k + 1, size);
      if r.Some? {
        FirstMatchConcat(Elements(bs[..k], size), Values(bs[k], size), f);
        FirstMatchPrefixOf(Elements(bs[..k + 1], size), Elements(bs, size), f);
        return;
      }
      FirstMatchNoneConcat(Elements(bs[..k], size), Values(bs[k], size), f);
    }
    assert bs[..|bs|] == bs;
    return None;
  }

  /** The slot loop of `find` over one bucket. */
  method FindInSlots<T>(b: Bucket<T>, size: nat, full: bool, f: T -> bool) returns (r: Option<T>)
    requires BucketValid(b, size) && (full ==> IsFull(b))
    ensures r == FirstMatch(Values(b, size), f)
  {
    CountTrueFull(b.occupied);
    assert b.occupied[..size] == b.occupied;
    for i := 0 to size
      invariant FirstMatch(OccupiedValues(b, i), f).None?
    {
      FindStep(b, size, i, f);
      if full || b.occupied[i] {
        assert b.occupied[i];
        var x := b.elements[i].value;
        if f(x) {
          return Some(x);
        }
      }
    }
    return None;
  }

  /** One slot of the scan of `find`: with no match before slot `i`, an
      occupied slot whose value matches is the first match of the bucket,
      and any other slot leaves no match so far. */
  lemma FindStep<T>(b: Bucket<T>, size: nat, i: nat, f: T -> bool)
    requires BucketValid(b, size) && i < size && FirstMatch(OccupiedValues(b, i), f).None?
    ensures b.occupied[i] && f(b.elements[i].value) ==> FirstMatch(Values(b, size), f) == Some(b.elements[i].value)
    ensures !(b.occupied[i] && f(b.elements[i].value)) ==> FirstMatch(OccupiedValues(b, i + 1), f).None?
  {
    OccupiedPrefix(b, i + 1, size);
    assert b.occupied[..size] == b.occupied;
    if b.occupied[i] {
      var x := b.elements[i].value;
      if f(x) {
        FirstMatchConcat(OccupiedValues(b, i), [x], f);
        FirstMatchPrefixOf(OccupiedValues(b, i + 1), Values(b, size), f);
      } else {
        FirstMatchNoneConcat(OccupiedValues(b, i), [x], f);
      }
    } else {
      assert OccupiedValues(b, i + 1) == OccupiedValues(b, i);
    }
  }

  /** The round trip of the source's test: the handle `insert` returns gives
      the same value back to `remove`, and afterwards every handle designates
      what it did before the insert. */
  method InsertThenRemove<T>(a: BucketArray<T>, x: T) returns (y: T)
    requires a.Valid() && a.bucketSize > 0
    modifies a
    ensures a.Valid() && y == x && a.len == old(a.len)
    ensures forall g :: a.Lookup(g) == old(a.Lookup(g))
  {
    var h := a.Insert(x);
    var r := a.Remove(h.value);
    y := r.value;
  }
}
