/** `split` of useful.hpp: cut a container into the runs of elements that no
    delimiter matches.

    A container is a `seq<E>`; an iterator into it is an index; a bound is a
    pair of such indices `[begin, end)`. The runs the algorithm must produce are
    given independently by `Segments`, a recursive definition that skips a
    delimiter and otherwise takes the longest delimiter-free prefix. */
module Split {
  import opened Seqs
  import opened Patterns

  // ---------------------------------------------------------------------
  // The reference definition of the runs.

  /** The length of the longest prefix of `c` that no delimiter matches. */
  function RunLength<E(==)>(c: seq<E>, ps: seq<Pattern<E>>): (n: nat)
    ensures n <= |c|
    ensures forall k :: 0 <= k < n ==> !IsDelimiter(ps, c[k])
    ensures n < |c| ==> IsDelimiter(ps, c[n])
  {
    if c == [] || IsDelimiter(ps, c[0]) then 0
    else 1 + RunLength(c[1..], ps)
  }

  /** The runs of `c`: maximal, non-empty, delimiter-free slices, in order. */
  function Segments<E(==)>(c: seq<E>, ps: seq<Pattern<E>>): seq<seq<E>>
    decreases |c|
  {
    if c == [] then []
    else if IsDelimiter(ps, c[0]) then Segments(c[1..], ps)
    else
      var n := RunLength(c, ps);
      [c[..n]] + Segments(c[n..], ps)
  }

  /** The elements of `c` that no delimiter matches, in order. */
  function NonDelimiters<E(==)>(c: seq<E>, ps: seq<Pattern<E>>): seq<E>
  {
    if c == [] then []
    else if IsDelimiter(ps, c[0]) then NonDelimiters(c[1..], ps)
    else [c[0]] + NonDelimiters(c[1..], ps)
  }

  ghost predicate DelimiterFree<E>(s: seq<E>, ps: seq<Pattern<E>>)
  {
    forall k :: 0 <= k < |s| ==> !IsDelimiter(ps, s[k])
  }

  // ---------------------------------------------------------------------
  // Properties of the runs.

  /** Every run is non-empty and contains no element a delimiter matches. */
  lemma {:induction false} SegmentsAreRuns<E>(c: seq<E>, ps: seq<Pattern<E>>)
    ensures forall j :: 0 <= j < |Segments(c, ps)| ==>
              Segments(c, ps)[j] != [] && DelimiterFree(Segments(c, ps)[j], ps)
    decreases |c|
  {
    if c == [] {
    } else if IsDelimiter(ps, c[0]) {
      SegmentsAreRuns(c[1..], ps);
    } else {
      var n := RunLength(c, ps);
      SegmentsAreRuns(c[n..], ps);
      assert Segments(c, ps) == [c[..n]] + Segments(c[n..], ps);
    }
  }

  /** A delimiter-free prefix followed by the rest: the non-delimiters of the
      whole are the prefix followed by the non-delimiters of the rest. */
  lemma {:induction false} NonDelimitersOfFreePrefix<E>(c: seq<E>, n: nat, ps: seq<Pattern<E>>)
    requires n <= |c|
    requires forall k :: 0 <= k < n ==> !IsDelimiter(ps, c[k])
    ensures NonDelimiters(c, ps) == c[..n] + NonDelimiters(c[n..], ps)
    decreases n
  {
    if n > 0 {
      NonDelimitersOfFreePrefix(c[1..], n - 1, ps);
      assert c[1..][n - 1..] == c[n..];
      assert c[..n] == [c[0]] + c[1..][..n - 1];
    }
  }

  /** The concatenation of the runs is the input with the delimiters dropped. */
  lemma {:induction false} SegmentsFlatten<E>(c: seq<E>, ps: seq<Pattern<E>>)
    ensures Flatten(Segments(c, ps)) == NonDelimiters(c, ps)
    decreases |c|
  {
    if c == [] {
    } else if IsDelimiter(ps, c[0]) {
      SegmentsFlatten(c[1..], ps);
    } else {
      var n := RunLength(c, ps);
      SegmentsFlatten(c[n..], ps);
      NonDelimitersOfFreePrefix(c, n, ps);
      assert ([c[..n]] + Segments(c[n..], ps))[1..] == Segments(c[n..], ps);
    }
  }

  /** One input made of a delimiter-free prefix closed by a delimiter: the
      prefix is the first run, and the rest comes after the delimiter. */
  lemma ClosedRun<E>(s: seq<E>, n: nat, ps: seq<Pattern<E>>)
    requires 0 < n < |s|
    requires forall k :: 0 <= k < n ==> !IsDelimiter(ps, s[k])
    requires IsDelimiter(ps, s[n])
    ensures Segments(s, ps) == [s[..n]] + Segments(s[n + 1..], ps)
  {
    RunLengthIs(s, n, ps);
    assert s[n..][1..] == s[n + 1..];
  }

  /** An input no delimiter matches is one run. */
  lemma OpenRun<E>(s: seq<E>, ps: seq<Pattern<E>>)
    requires s != []
    requires forall k :: 0 <= k < |s| ==> !IsDelimiter(ps, s[k])
    ensures Segments(s, ps) == [s]
  {
    RunLengthIs(s, |s|, ps);
    assert s[..|s|] == s;
    assert s[|s|..] == [];
  }

  lemma {:induction false} RunLengthIs<E>(s: seq<E>, n: nat, ps: seq<Pattern<E>>)
    requires n <= |s|
    requires forall k :: 0 <= k < n ==> !IsDelimiter(ps, s[k])
    requires n < |s| ==> IsDelimiter(ps, s[n])
    ensures RunLength(s, ps) == n
    decreases n
  {
    if n > 0 {
      RunLengthIs(s[1..], n - 1, ps);
    }
  }

  /** A delimiter always separates runs: the runs of `a + [d] + b` are those of
      `a` followed by those of `b`, so consecutive, leading and trailing
      delimiters never make an empty run. */
  lemma {:induction false} DelimiterSeparates<E>(a: seq<E>, d: E, b: seq<E>, ps: seq<Pattern<E>>)
    requires IsDelimiter(ps, d)
    ensures Segments(a + [d] + b, ps) == Segments(a, ps) + Segments(b, ps)
    decreases |a|
  {
    var c := a + [d] + b;
    if a == [] {
      assert c[1..] == b;
    } else if IsDelimiter(ps, a[0]) {
      assert c[1..] == a[1..] + [d] + b;
      DelimiterSeparates(a[1..], d, b, ps);
    } else {
      var n := RunLength(a, ps);
      RunLengthIs(c, n, ps);
      assert c[..n] == a[..n];
      if n < |a| {
        assert c[n..] == a[n..] + [d] + b;
        DelimiterSeparates(a[n..], d, b, ps);
      } else {
        assert c[n..] == [d] + b;
        assert c[n..][1..] == b;
        assert a[n..] == [];
      }
    }
  }

  /** Splitting `[1, 2, 2, 3]` on the value 2 gives `[1]` and `[3]`. */
  lemma SplitOnRepeatedValue()
    ensures Segments([1, 2, 2, 3], [Value(2)]) == [[1], [3]]
  {
    var ps := [Value(2)];
    assert IsDelimiter(ps, 2) && !IsDelimiter(ps, 1) && !IsDelimiter(ps, 3);
    OpenRun([1], ps);
    OpenRun([3], ps);
    DelimiterSeparates([1], 2, [2, 3], ps);
    assert [1] + [2] + [2, 3] == [1, 2, 2, 3];
    DelimiterSeparates([], 2, [3], ps);
    assert [] + [2] + [3] == [2, 3];
  }

  /** Splitting `[1, 2, 3, 4, 5]` on the value 3 gives `[1, 2]` and `[4, 5]`. */
  lemma SplitOnValue()
    ensures Segments([1, 2, 3, 4, 5], [Value(3)]) == [[1, 2], [4, 5]]
  {
    var ps := [Value(3)];
    assert IsDelimiter(ps, 3) && !IsDelimiter(ps, 1) && !IsDelimiter(ps, 2);
    assert !IsDelimiter(ps, 4) && !IsDelimiter(ps, 5);
    OpenRun([1, 2], ps);
    OpenRun([4, 5], ps);
    DelimiterSeparates([1, 2], 3, [4, 5], ps);
    assert [1, 2] + [3] + [4, 5] == [1, 2, 3, 4, 5];
  }

  /** Splitting `[1, 2, 3, 4, 5]` on the predicate "is even" gives `[1]`, `[3]`
      and `[5]`. */
  lemma SplitOnPredicate()
    ensures Segments([1, 2, 3, 4, 5], [Pred((x: int) => x % 2 == 0)]) == [[1], [3], [5]]
  {
    var even := [Pred((x: int) => x % 2 == 0)];
    assert IsDelimiter(even, 2) && IsDelimiter(even, 4);
    assert !IsDelimiter(even, 1) && !IsDelimiter(even, 3) && !IsDelimiter(even, 5);
    OpenRun([1], even);
    OpenRun([3], even);
    OpenRun([5], even);
    DelimiterSeparates([3], 4, [5], even);
    assert [3] + [4] + [5] == [3, 4, 5];
    DelimiterSeparates([1], 2, [3, 4, 5], even);
    assert [1] + [2] + [3, 4, 5] == [1, 2, 3, 4, 5];
  }

  // ---------------------------------------------------------------------
  // The algorithm.

  ghost predicate BoundsWithin(bounds: seq<(nat, nat)>, size: nat)
  {
    forall k :: 0 <= k < |bounds| ==> bounds[k].0 <= bounds[k].1 <= size
  }

  /** The slices of `c` that `bounds` delimit. */
  function Slices<E>(c: seq<E>, bounds: seq<(nat, nat)>): seq<seq<E>>
    requires BoundsWithin(bounds, |c|)
  {
    if bounds == [] then []
    else
      var last := bounds[|bounds| - 1];
      Slices(c, bounds[..|bounds| - 1]) + [c[last.0..last.1]]
  }

  /** `create_split_vector<Container>(bounds)`: one new container per bound. */
  method CreateSplitVector<E>(c: seq<E>, bounds: seq<(nat, nat)>) returns (result: seq<seq<E>>)
    requires BoundsWithin(bounds, |c|)
    ensures |result| == |bounds|
    ensures forall k :: 0 <= k < |bounds| ==> result[k] == c[bounds[k].0..bounds[k].1]
    ensures result == Slices(c, bounds)
  {
    result := [];
    var k := 0;
    while k < |bounds|
      invariant 0 <= k <= |bounds|
      invariant result == Slices(c, bounds[..k])
      invariant |result| == k
      invariant forall j :: 0 <= j < k ==> result[j] == c[bounds[j].0..bounds[j].1]
    {
      assert bounds[..k + 1][..k] == bounds[..k];
      result := result + [c[bounds[k].0..bounds[k].1]];
      k := k + 1;
    }
    assert bounds[..k] == bounds;
  }

  /** What the loop of `split` knows after looking at `c[..i]`. With no run
      open, the bounds so far followed by the runs of the rest are the runs of
      the whole. With a run open, it starts before `i`, reaches to the end of
      `c` (`container.cend()`), holds no delimiter up to `i`, and the closed
      bounds followed by the runs from its start are the runs of the whole. */
  ghost predicate Progress<E>(c: seq<E>, ps: seq<Pattern<E>>, i: nat, emptySeq: bool, bounds: seq<(nat, nat)>)
  {
    && i <= |c|
    && BoundsWithin(bounds, |c|)
    && (emptySeq ==> Slices(c, bounds) + Segments(c[i..], ps) == Segments(c, ps))
    && (!emptySeq ==>
          && |bounds| > 0
          && bounds[|bounds| - 1].0 < i
          && bounds[|bounds| - 1].1 == |c|
          && DelimiterFree(c[bounds[|bounds| - 1].0..i], ps)
          && Slices(c, bounds[..|bounds| - 1]) + Segments(c[bounds[|bounds| - 1].0..], ps) == Segments(c, ps))
  }

  /** No run open, and a delimiter: it is skipped. */
  lemma StepSkip<E>(c: seq<E>, ps: seq<Pattern<E>>, i: nat, bounds: seq<(nat, nat)>)
    requires i < |c| && Progress(c, ps, i, true, bounds) && IsDelimiter(ps, c[i])
    ensures Progress(c, ps, i + 1, true, bounds)
  {
    assert c[i..][1..] == c[i + 1..];
  }

  /** No run open, and another element: a run `[i, end)` opens. */
  lemma StepOpen<E>(c: seq<E>, ps: seq<Pattern<E>>, i: nat, bounds: seq<(nat, nat)>)
    requires i < |c| && Progress(c, ps, i, true, bounds) && !IsDelimiter(ps, c[i])
    ensures Progress(c, ps, i + 1, false, bounds + [(i, |c|)])
  {
    var bs := bounds + [(i, |c|)];
    assert bs[..|bs| - 1] == bounds;
    assert c[i..i + 1] == [c[i]];
  }

  /** A run open, and a delimiter: the run is closed at `i`. */
  lemma StepClose<E>(c: seq<E>, ps: seq<Pattern<E>>, i: nat, bounds: seq<(nat, nat)>)
    requires i < |c| && Progress(c, ps, i, false, bounds) && IsDelimiter(ps, c[i])
    ensures Progress(c, ps, i + 1, true, bounds[..|bounds| - 1] + [(bounds[|bounds| - 1].0, i)])
  {
    var b := bounds[|bounds| - 1].0;
    var bs := bounds[..|bounds| - 1] + [(b, i)];
    var s := c[b..];
    assert s[..i - b] == c[b..i];
    assert s[i - b + 1..] == c[i + 1..];
    ClosedRun(s, i - b, ps);
    assert bs[..|bs| - 1] == bounds[..|bounds| - 1];
    assert Slices(c, bs) == Slices(c, bounds[..|bounds| - 1]) + [c[b..i]];
  }

  /** A run open, and another element: the run goes on. */
  lemma StepInside<E>(c: seq<E>, ps: seq<Pattern<E>>, i: nat, bounds: seq<(nat, nat)>)
    requires i < |c| && Progress(c, ps, i, false, bounds) && !IsDelimiter(ps, c[i])
    ensures Progress(c, ps, i + 1, false, bounds)
  {
    var b := bounds[|bounds| - 1].0;
    assert c[b..i + 1] == c[b..i] + [c[i]];
  }

  /** At the end of the input the bounds delimit exactly the runs. */
  lemma StepEnd<E>(c: seq<E>, ps: seq<Pattern<E>>, emptySeq: bool, bounds: seq<(nat, nat)>)
    requires Progress(c, ps, |c|, emptySeq, bounds)
    ensures Slices(c, bounds) == Segments(c, ps)
  {
    if emptySeq {
      assert c[|c|..] == [];
    } else {
      var b := bounds[|bounds| - 1].0;
      assert c[b..] == c[b..|c|];
      OpenRun(c[b..], ps);
    }
  }

  /** `split(container, delimiters...)`: while no run is open, delimiters are
      skipped and the first other element opens a run reaching to the end;
      while one is open, the next delimiter closes it there. */
  method Split<E(==)>(c: seq<E>, delimiters: seq<Pattern<E>>) returns (runs: seq<seq<E>>)
    ensures runs == Segments(c, delimiters)
  {
    var emptySeq := true;
    var bounds: seq<(nat, nat)> := [];
    var i := 0;
    while i < |c|
      invariant Progress(c, delimiters, i, emptySeq, bounds)
    {
      if emptySeq {
        if IsDelimiter(delimiters, c[i]) {
          StepSkip(c, delimiters, i, bounds);
        } else {
          StepOpen(c, delimiters, i, bounds);
          emptySeq := false;
          bounds := bounds + [(i, |c|)];
        }
      } else if IsDelimiter(delimiters, c[i]) {
        StepClose(c, delimiters, i, bounds);
        bounds := bounds[..|bounds| - 1] + [(bounds[|bounds| - 1].0, i)];
        emptySeq := true;
      } else {
        StepInside(c, delimiters, i, bounds);
      }
      i := i + 1;
    }
    StepEnd(c, delimiters, emptySeq, bounds);
    runs := CreateSplitVector(c, bounds);
  }

  /** `create_split_tuple(vec, make_index_sequence<N>())`: the first `n`
      containers as a fixed-size tuple; `vec[Indexes]` is unchecked, so `vec`
      must hold at least `n`. */
  function CreateSplitTuple<E>(vec: seq<seq<E>>, n: nat): (r: seq<seq<E>>)
    requires n <= |vec|
    ensures r == vec[..n]
  {
    seq(n, k requires 0 <= k < n => vec[k])
  }

  /** `split<N>(container, delimiters...)`: the first `n` runs, of which there
      must be at least `n`. */
  method SplitN<E(==)>(n: nat, c: seq<E>, delimiters: seq<Pattern<E>>) returns (parts: seq<seq<E>>)
    requires n <= |Segments(c, delimiters)|
    ensures parts == Segments(c, delimiters)[..n]
  {
    var runs := Split(c, delimiters);
    parts := CreateSplitTuple(runs, n);
  }
}
