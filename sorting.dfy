/** The stable sort of Rust's `slice::sort_by`, used by the UI batcher
    (src/ui/batching.rs) and the sprite batcher
    (src/renderer/sdf_sprite.rs).  The comparator is given as a "less or
    equal" relation that must be a total preorder; the sort is defined by
    insertion, which keeps elements of equal rank in their input order. */
module Sorting {

  /** `le` is total and transitive, so it ranks every pair of elements. */
  ghost predicate TotalPreorder<T(!new)>(le: (T, T) -> bool)
  {
    (forall a, b :: le(a, b) || le(b, a)) &&
    (forall a, b, c :: le(a, b) && le(b, c) ==> le(a, c))
  }

  /** Neither element ranks strictly before the other. */
  predicate Equiv<T>(a: T, b: T, le: (T, T) -> bool)
  {
    le(a, b) && le(b, a)
  }

  predicate Sorted<T>(s: seq<T>, le: (T, T) -> bool)
  {
    forall i, j :: 0 <= i < j < |s| ==> le(s[i], s[j])
  }

  /** The elements of `s` of the same rank as `y`, in their order in `s`. */
  function RankClass<T>(s: seq<T>, y: T, le: (T, T) -> bool): seq<T>
  {
    if s == [] then []
    else RankClass(s[..|s| - 1], y, le) + (if Equiv(s[|s| - 1], y, le) then [s[|s| - 1]] else [])
  }

  /** Inserts `x` into `t` after every element that does not rank strictly
      after it. */
  function Insert<T>(t: seq<T>, x: T, le: (T, T) -> bool): seq<T>
  {
    if t == [] then [x]
    else if le(t[|t| - 1], x) then t + [x]
    else Insert(t[..|t| - 1], x, le) + [t[|t| - 1]]
  }

  /** `sort_by`: each element, in input order, is inserted into the sorted
      prefix before it. */
  function SortBy<T>(s: seq<T>, le: (T, T) -> bool): seq<T>
  {
    if s == [] then [] else Insert(SortBy(s[..|s| - 1], le), s[|s| - 1], le)
  }

  lemma {:induction false} InsertPermutes<T>(t: seq<T>, x: T, le: (T, T) -> bool)
    ensures multiset(Insert(t, x, le)) == multiset(t) + multiset{x}
  {
    if t != [] && !le(t[|t| - 1], x) {
      var t' := t[..|t| - 1];
      InsertPermutes(t', x, le);
      assert t == t' + [t[|t| - 1]];
    }
  }

  lemma {:induction false} InsertSorted<T(!new)>(t: seq<T>, x: T, le: (T, T) -> bool)
    requires TotalPreorder(le) && Sorted(t, le)
    ensures Sorted(Insert(t, x, le), le)
  {
    if t != [] {
      var last := t[|t| - 1];
      var t' := t[..|t| - 1];
      if !le(last, x) {
        assert le(x, last);
        InsertSorted(t', x, le);
        InsertPermutes(t', x, le);
        var r := Insert(t', x, le);
        forall i | 0 <= i < |r|
          ensures le(r[i], last)
        {
          assert r[i] in multiset(r);
          if r[i] != x {
            assert r[i] in multiset(t');
            var k :| 0 <= k < |t'| && t'[k] == r[i];
            assert t[k] == r[i];
          }
        }
      }
    }
  }

  /** Inserting `x` adds it at the end of its own rank class and leaves the
      other classes alone. */
  lemma {:induction false} InsertRankClass<T(!new)>(t: seq<T>, x: T, y: T, le: (T, T) -> bool)
    requires TotalPreorder(le) && Sorted(t, le)
    ensures RankClass(Insert(t, x, le), y, le) == RankClass(t, y, le) + (if Equiv(x, y, le) then [x] else [])
  {
    if t == [] {
      assert RankClass([x], y, le) == RankClass([], y, le) + (if Equiv(x, y, le) then [x] else []);
    } else {
      var last := t[|t| - 1];
      var t' := t[..|t| - 1];
      if le(last, x) {
        assert (t + [x])[..|t|] == t;
      } else {
        InsertRankClass(t', x, y, le);
        var r := Insert(t', x, le);
        assert (r + [last])[..|r|] == r;
      }
    }
  }

  /** `sort_by` on a total preorder: the result is sorted and a
      permutation of the input. */
  lemma SortBySorted<T(!new)>(s: seq<T>, le: (T, T) -> bool)
    requires TotalPreorder(le)
    ensures Sorted(SortBy(s, le), le)
    ensures multiset(SortBy(s, le)) == multiset(s)
  {
    SortByOrdered(s, le);
    SortByPermutes(s, le);
  }

  lemma {:induction false} SortByOrdered<T(!new)>(s: seq<T>, le: (T, T) -> bool)
    requires TotalPreorder(le)
    ensures Sorted(SortBy(s, le), le)
  {
    if s != [] {
      SortByOrdered(s[..|s| - 1], le);
      InsertSorted(SortBy(s[..|s| - 1], le), s[|s| - 1], le);
    }
  }

  lemma {:induction false} SortByPermutes<T>(s: seq<T>, le: (T, T) -> bool)
    ensures multiset(SortBy(s, le)) == multiset(s)
  {
    if s != [] {
      var s' := s[..|s| - 1];
      var e := s[|s| - 1];
      SortByPermutes(s', le);
      InsertPermutes(SortBy(s', le), e, le);
      assert s == s' + [e];
    }
  }

  /** `sort_by` is stable: every rank class keeps its input order. */
  lemma {:induction false} SortByStable<T(!new)>(s: seq<T>, y: T, le: (T, T) -> bool)
    requires TotalPreorder(le)
    ensures RankClass(SortBy(s, le), y, le) == RankClass(s, y, le)
  {
    if s != [] {
      var s' := s[..|s| - 1];
      SortByStable(s', y, le);
      SortByOrdered(s', le);
      InsertRankClass(SortBy(s', le), s[|s| - 1], y, le);
    }
  }

  lemma {:induction false} SortByLength<T>(s: seq<T>, le: (T, T) -> bool)
    ensures |SortBy(s, le)| == |s|
  {
    if s != [] {
      SortByPermutes(s, le);
      assert |multiset(SortBy(s, le))| == |multiset(s)|;
    }
  }
}
