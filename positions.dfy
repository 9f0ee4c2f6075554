/** Tagging the elements of a container with their positions, and sorting the
    tagged elements by value (`add_positions`, `add_positions_and_sort` of
    useful/utils.hpp; `position_pairs` and `sort_save_position` of useful.hpp
    do the same and are modelled by the same members).

    A tagged element is a pair `(index, value)`; the index is the source's
    `u64` counter, which cannot wrap for a container that fits in memory, so it
    is a `nat`. */
module Positions {

  /** The requirements `std::sort` places on its comparator, a strict weak
      ordering: irreflexive, transitive, and with transitive incomparability
      (stated as: if `x < z` then `x < y` or `y < z`). */
  ghost predicate StrictWeakOrder<E(!new)>(less: (E, E) -> bool)
  {
    && (forall x :: !less(x, x))
    && (forall x, y, z :: less(x, y) && less(y, z) ==> less(x, z))
    && (forall x, y, z :: less(x, z) ==> less(x, y) || less(y, z))
  }

  /** No later element is less than an earlier one, comparing values only. */
  ghost predicate SortedBySecond<E>(s: seq<(nat, E)>, less: (E, E) -> bool)
  {
    forall p, q :: 0 <= p < q < |s| ==> !less(s[q].1, s[p].1)
  }

  /** `(0, c[0]), (1, c[1]), ...`: the tagged container. */
  ghost function Tagged<E>(c: seq<E>): seq<(nat, E)>
  {
    seq(|c|, k requires 0 <= k < |c| => (k, c[k]))
  }

  /** `add_positions(x)`: the index counter `j` starts at 0 and advances with
      the iteration. */
  method AddPositions<E>(c: seq<E>) returns (result: seq<(nat, E)>)
    ensures |result| == |c|
    ensures forall k :: 0 <= k < |c| ==> result[k] == (k, c[k])
  {
    result := [];
    var j := 0;
    while j < |c|
      invariant j <= |c|
      invariant |result| == j
      invariant forall k :: 0 <= k < j ==> result[k] == (k, c[k])
    {
      result := result + [(j, c[j])];
      j := j + 1;
    }
  }

  /** Exchange two elements of `a`. */
  method Swap<T>(a: array<T>, i: nat, j: nat)
    requires i < a.Length && j < a.Length
    modifies a
    ensures a[..] == old(a[..])[i := old(a[j])][j := old(a[i])]
    ensures multiset(a[..]) == multiset(old(a[..]))
  {
    a[i], a[j] := a[j], a[i];
  }

  /** What the inner loop of `SortBySecond` keeps while it moves `a[j]` left:
      the rest of `a[..i + 1]` is sorted, and `a[j]` is less than everything
      after it. */
  ghost predicate Sinking<E>(s: seq<(nat, E)>, i: nat, j: nat, less: (E, E) -> bool)
    requires j <= i < |s|
  {
    && SortedBySecond(s[..j], less)
    && SortedBySecond(s[j + 1..i + 1], less)
    && (forall p, q :: 0 <= p < j < q <= i ==> !less(s[q].1, s[p].1))
    && (forall q :: j < q <= i ==> less(s[j].1, s[q].1))
  }

  /** Moving `a[j]` one place left keeps `Sinking`. */
  lemma SinkStep<E>(s: seq<(nat, E)>, i: nat, j: nat, less: (E, E) -> bool)
    requires 0 < j <= i < |s|
    requires Sinking(s, i, j, less) && less(s[j].1, s[j - 1].1)
    ensures Sinking(s[j - 1 := s[j]][j := s[j - 1]], i, j - 1, less)
  {
    var t := s[j - 1 := s[j]][j := s[j - 1]];
    assert t[..j - 1] == s[..j - 1];
    var right := t[j..i + 1];
    forall p, q | 0 <= p < q < |right|
      ensures !less(right[q].1, right[p].1)
    {
      if p > 0 {
        assert right[p] == s[j + 1..i + 1][p - 1];
        assert right[q] == s[j + 1..i + 1][q - 1];
      }
    }
  }

  /** When `a[j]` stops (at the front, or not less than its left neighbour),
      `a[..i + 1]` is sorted. */
  lemma SinkDone<E(!new)>(s: seq<(nat, E)>, i: nat, j: nat, less: (E, E) -> bool)
    requires StrictWeakOrder(less)
    requires j <= i < |s|
    requires Sinking(s, i, j, less)
    requires j == 0 || !less(s[j].1, s[j - 1].1)
    ensures SortedBySecond(s[..i + 1], less)
  {
    forall p, q | 0 <= p < q < i + 1
      ensures !less(s[q].1, s[p].1)
    {
      if q < j {
        assert s[..j][p] == s[p] && s[..j][q] == s[q];
      } else if q == j {
        if p < j - 1 {
          assert s[..j][p] == s[p] && s[..j][j - 1] == s[j - 1];
        }
      } else if p > j {
        assert s[j + 1..i + 1][p - j - 1] == s[p] && s[j + 1..i + 1][q - j - 1] == s[q];
      }
    }
  }

  /** The in-place sort of `add_positions_and_sort`, here an insertion sort: a
      sorted permutation, ordered by `less` on the values. No stability is
      claimed, as `std::sort` gives none. */
  method SortBySecond<E(!new)>(a: array<(nat, E)>, less: (E, E) -> bool)
    requires StrictWeakOrder(less)
    modifies a
    ensures SortedBySecond(a[..], less)
    ensures multiset(a[..]) == multiset(old(a[..]))
  {
    if a.Length == 0 {
      return;
    }
    var i := 1;
    while i < a.Length
      invariant 1 <= i <= a.Length
      invariant SortedBySecond(a[..i], less)
      invariant multiset(a[..]) == multiset(old(a[..]))
    {
      var j := i;
      assert a[..i + 1][..j] == a[..i];
      while j > 0 && less(a[j].1, a[j - 1].1)
        invariant 0 <= j <= i
        invariant Sinking(a[..], i, j, less)
        invariant multiset(a[..]) == multiset(old(a[..]))
      {
        SinkStep(a[..], i, j, less);
        Swap(a, j - 1, j);
        j := j - 1;
      }
      SinkDone(a[..], i, j, less);
      assert a[..][..i + 1] == a[..i + 1];
      i := i + 1;
    }
    assert a[..a.Length] == a[..];
  }

  /** `add_positions_and_sort(c, compare)`: tag, then sort by `compare` on the
      values. The result is a permutation of the tagged container, sorted on the
      values, and every pair still names the element at its index. */
  method AddPositionsAndSort<E(!new)>(c: seq<E>, compare: (E, E) -> bool) returns (result: seq<(nat, E)>)
    requires StrictWeakOrder(compare)
    ensures |result| == |c|
    ensures multiset(result) == multiset(Tagged(c))
    ensures SortedBySecond(result, compare)
    ensures forall k :: 0 <= k < |result| ==> result[k].0 < |c| && c[result[k].0] == result[k].1
  {
    var tagged := AddPositions(c);
    assert tagged == Tagged(c);
    var a := new (nat, E)[|tagged|](k requires 0 <= k < |tagged| => tagged[k]);
    assert a[..] == tagged;
    SortBySecond(a, compare);
    result := a[..];
    assert |result| == |multiset(result)| == |multiset(tagged)| == |c|;
    forall k | 0 <= k < |result|
      ensures result[k].0 < |c| && c[result[k].0] == result[k].1
    {
      assert result[k] in multiset(result);
      assert result[k] in multiset(tagged);
      assert result[k] in tagged;
    }
  }

  /** Sorting keeps every position exactly once: the indices of the result are
      `0 .. |c| - 1`, each at one place. */
  lemma {:induction false} TaggedIndicesDistinct<E>(c: seq<E>, r: seq<(nat, E)>, p: nat, q: nat)
    requires multiset(r) == multiset(Tagged(c))
    requires p < q < |r|
    ensures r[p].0 != r[q].0
  {
    if r[p].0 == r[q].0 {
      assert r[p] in multiset(Tagged(c)) && r[q] in multiset(Tagged(c));
      assert r[p] in Tagged(c) && r[q] in Tagged(c);
      assert r[p] == r[q];
      var m := multiset(r);
      assert m[r[p]] >= 2 by {
        assert r == r[..p] + [r[p]] + r[p + 1..q] + [r[q]] + r[q + 1..];
      }
      TaggedOnce(c, r[p]);
    }
  }

  /** Each pair occurs at most once in the tagged container. */
  lemma {:induction false} TaggedOnce<E>(c: seq<E>, x: (nat, E))
    ensures multiset(Tagged(c))[x] <= 1
    decreases |c|
  {
    if c != [] {
      var last := |c| - 1;
      assert Tagged(c) == Tagged(c[..last]) + [(last, c[last])];
      TaggedOnce(c[..last], x);
      if x == (last, c[last]) {
        assert x !in Tagged(c[..last]);
      }
    }
  }
}
