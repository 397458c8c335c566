/** Ordering of resolved dependency lists: the comparator `__cmp_gint`, the
    library sort `g_array_sort` it is passed to, and the removal of adjacent
    duplicates that `_nc_hipert_first_order_solve_deps` runs afterwards. */
module Sorting {

  /** `__cmp_gint`: the three-way comparison of two ints. */
  function CmpInt(u: int, v: int): (c: int)
    ensures c < 0 <==> u < v
    ensures c == 0 <==> u == v
    ensures c > 0 <==> u > v
  {
    if u < v then -1 else if u > v then 1 else 0
  }

  predicate Sorted(s: seq<int>)
  {
    forall i, j :: 0 <= i < j < |s| ==> s[i] <= s[j]
  }

  predicate StrictlySorted(s: seq<int>)
  {
    forall i, j :: 0 <= i < j < |s| ==> s[i] < s[j]
  }

  /** Places `x` in front of the first element it does not compare above. */
  function Insert(x: int, s: seq<int>): seq<int>
  {
    if s == [] || CmpInt(x, s[0]) <= 0 then [x] + s else [s[0]] + Insert(x, s[1..])
  }

  /** `g_array_sort (deps, &__cmp_gint)`. GLib's sort is not part of this
      model; any sort with the same comparator yields the same list, and
      insertion sort is the one used here. */
  function SortAsc(s: seq<int>): seq<int>
  {
    if s == [] then [] else Insert(s[0], SortAsc(s[1..]))
  }

  /** The list left by the duplicate-removal loop: an entry is dropped when
      it equals the last entry kept. */
  function Dedup(s: seq<int>): seq<int>
  {
    if s == [] then []
    else
      var p := Dedup(s[..|s| - 1]);
      if p != [] && p[|p| - 1] == s[|s| - 1] then p else p + [s[|s| - 1]]
  }

  /** The final step of dependency resolution: sort, then drop duplicates. */
  function SortUnique(s: seq<int>): seq<int>
  {
    Dedup(SortAsc(s))
  }

  lemma {:induction false} InsertElems(x: int, s: seq<int>)
    ensures forall y :: y in Insert(x, s) <==> y == x || y in s
  {
    if s != [] && CmpInt(x, s[0]) > 0 {
      InsertElems(x, s[1..]);
      assert s == [s[0]] + s[1..];
    }
  }

  lemma {:induction false} InsertPerm(x: int, s: seq<int>)
    ensures multiset(Insert(x, s)) == multiset(s) + multiset{x}
  {
    if s != [] && CmpInt(x, s[0]) > 0 {
      var tail := s[1..];
      InsertPerm(x, tail);
      assert s == [s[0]] + tail;
      assert multiset([s[0]] + Insert(x, tail)) == multiset{s[0]} + multiset(Insert(x, tail));
    }
  }

  lemma {:induction false} InsertSorted(x: int, s: seq<int>)
    requires Sorted(s)
    ensures Sorted(Insert(x, s))
  {
    if s == [] || CmpInt(x, s[0]) <= 0 {
      var r := [x] + s;
      assert Insert(x, s) == r;
      forall i, j | 0 <= i < j < |r| ensures r[i] <= r[j] {
        if i > 0 {
          assert r[i] == s[i - 1] && r[j] == s[j - 1];
        } else {
          assert r[j] == s[j - 1] && s[0] <= s[j - 1];
        }
      }
    } else {
      var tail := s[1..];
      assert Sorted(tail);
      InsertSorted(x, tail);
      InsertElems(x, tail);
      var t := Insert(x, tail);
      var r := [s[0]] + t;
      assert Insert(x, s) == r;
      forall k | 0 <= k < |t| ensures s[0] <= t[k] {
        assert t[k] in t;
      }
      forall i, j | 0 <= i < j < |r| ensures r[i] <= r[j] {
        if i > 0 {
          assert r[i] == t[i - 1] && r[j] == t[j - 1];
        } else {
          assert r[j] == t[j - 1];
        }
      }
    }
  }

  /** The sort is a permutation of its input into ascending order. */
  lemma {:induction false} SortAscCorrect(s: seq<int>)
    ensures multiset(SortAsc(s)) == multiset(s)
    ensures Sorted(SortAsc(s))
  {
    if s != [] {
      SortAscCorrect(s[1..]);
      InsertPerm(s[0], SortAsc(s[1..]));
      InsertSorted(s[0], SortAsc(s[1..]));
      assert s == [s[0]] + s[1..];
    }
  }

  /** An already ascending list is left as it is by the sort. */
  lemma {:induction false} SortAscOfSorted(s: seq<int>)
    requires Sorted(s)
    ensures SortAsc(s) == s
  {
    if s != [] {
      SortAscOfSorted(s[1..]);
      assert SortAsc(s[1..]) == s[1..];
      assert s == [s[0]] + s[1..];
    }
  }

  lemma {:induction false} DedupLast(s: seq<int>)
    requires s != []
    ensures Dedup(s) != [] && Dedup(s)[|Dedup(s)| - 1] == s[|s| - 1]
  {
  }

  /** Removing adjacent duplicates keeps exactly the values of the list. */
  lemma {:induction false} DedupElems(s: seq<int>)
    ensures forall x :: x in Dedup(s) <==> x in s
  {
    if s != [] {
      var q := s[..|s| - 1];
      DedupElems(q);
      assert s == q + [s[|s| - 1]];
      if q != [] {
        DedupLast(q);
      }
    }
  }

  /** On an ascending list, removing adjacent duplicates leaves a strictly
      ascending one. */
  lemma {:induction false} DedupStrict(s: seq<int>)
    requires Sorted(s)
    ensures StrictlySorted(Dedup(s))
  {
    if s != [] {
      var q := s[..|s| - 1];
      DedupStrict(q);
      DedupElems(q);
      var p := Dedup(q);
      if p != [] {
        DedupLast(q);
        assert q != [];
        forall k | 0 <= k < |p| ensures p[k] <= s[|s| - 1] {
          assert p[k] in q;
        }
      }
    }
  }

  /** A list that is already strictly ascending has no duplicates to remove. */
  lemma {:induction false} DedupOfStrict(s: seq<int>)
    requires StrictlySorted(s)
    ensures Dedup(s) == s
  {
    if s != [] {
      var q := s[..|s| - 1];
      assert StrictlySorted(q) by {
        forall i, j | 0 <= i < j < |q| ensures q[i] < q[j] {
          assert q[i] == s[i] && q[j] == s[j];
        }
      }
      DedupOfStrict(q);
      if q != [] {
        assert q[|q| - 1] == s[|s| - 2] < s[|s| - 1];
      }
      assert s == q + [s[|s| - 1]];
    }
  }

  /** What `solve_deps` leaves after its last scan: strictly ascending and
      holding exactly the values of its input. */
  lemma SortUniqueCorrect(s: seq<int>)
    ensures StrictlySorted(SortUnique(s))
    ensures forall x :: x in SortUnique(s) <==> x in s
  {
    SortAscCorrect(s);
    DedupStrict(SortAsc(s));
    DedupElems(SortAsc(s));
    forall x ensures x in SortAsc(s) <==> x in s {
      assert x in SortAsc(s) <==> x in multiset(SortAsc(s));
    }
  }

  /** Sorting and deduplicating a strictly ascending list changes nothing. */
  lemma SortUniqueOfStrict(s: seq<int>)
    requires StrictlySorted(s)
    ensures SortUnique(s) == s
  {
    SortAscOfSorted(s);
    DedupOfStrict(s);
  }
}
