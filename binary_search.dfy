/** `binary_search_upper` and `binary_search_lower` of useful/utils.hpp.

    Both search an index range `[begin, end)` for an index whose projection
    `f(index)` equals `value`, and return the pair `(found, index)`. The index
    type of the source is any integer type; the model uses unbounded `int`,
    so the overflow of `end - begin` on a signed index type whose range is
    wider than the type can hold is not modelled. The projection is a total
    function, and the caller is responsible for it being non-decreasing on
    the range; the results below say what holds without that and what holds
    with it. */
module BinarySearch {

  /** `f` does not decrease on `[begin, end)`. */
  ghost predicate NonDecreasing(f: int -> int, begin: int, end: int)
  {
    forall i, j :: begin <= i <= j < end ==> f(i) <= f(j)
  }

  /** Some index of `[begin, end)` projects to `value`. */
  ghost predicate Occurs(f: int -> int, begin: int, end: int, value: int)
  {
    exists i :: begin <= i < end && f(i) == value
  }

  /** `binary_search_upper(begin, end, value, f)`: an empty range gives
      `(false, end)`; otherwise the index lies in the range and `found` says
      whether it projects to `value`. On a non-decreasing projection `found`
      holds exactly when `value` occurs, and the index is then the greatest
      one that projects to `value`. */
  function Upper(begin: int, end: int, value: int, f: int -> int): (r: (bool, int))
    requires begin <= end
    ensures begin == end ==> r == (false, end)
    ensures begin < end ==> begin <= r.1 < end && (r.0 <==> f(r.1) == value)
    ensures NonDecreasing(f, begin, end) ==> (r.0 <==> Occurs(f, begin, end, value))
    ensures NonDecreasing(f, begin, end) && r.0 ==> forall j :: r.1 < j < end ==> f(j) != value
    decreases end - begin
  {
    var diff := end - begin;
    if diff == 0 then (false, end)
    else if diff == 1 then (f(begin) == value, begin)
    else if diff == 2 then
      if f(begin + 1) == value then (true, begin + 1) else (f(begin) == value, begin)
    else
      var middle := begin + diff / 2;
      if value >= f(middle) then
        var r := Upper(middle, end, value, f);
        // An occurrence left of the middle forces `f(middle) == value`.
        assert NonDecreasing(f, begin, end) && Occurs(f, begin, end, value) ==> Occurs(f, middle, end, value) by {
          if NonDecreasing(f, begin, end) && Occurs(f, begin, end, value) {
            var i :| begin <= i < end && f(i) == value;
            if i < middle {
              assert f(i) <= f(middle);
            }
          }
        }
        r
      else
        var r := Upper(begin, middle, value, f);
        // Everything from the middle on projects above `value`.
        assert NonDecreasing(f, begin, end) ==> forall j :: middle <= j < end ==> f(j) != value by {
          if NonDecreasing(f, begin, end) {
            forall j | middle <= j < end
              ensures f(j) != value
            {
              assert f(middle) <= f(j);
            }
          }
        }
        r
  }

  /** `binary_search_lower(begin, end, value, f)`: as `Upper`, but on a
      non-decreasing projection the index found is the least one that
      projects to `value`. */
  function Lower(begin: int, end: int, value: int, f: int -> int): (r: (bool, int))
    requires begin <= end
    ensures begin == end ==> r == (false, end)
    ensures begin < end ==> begin <= r.1 < end && (r.0 <==> f(r.1) == value)
    ensures NonDecreasing(f, begin, end) ==> (r.0 <==> Occurs(f, begin, end, value))
    ensures NonDecreasing(f, begin, end) && r.0 ==> forall j :: begin <= j < r.1 ==> f(j) != value
    decreases end - begin
  {
    var diff := end - begin;
    if diff == 0 then (false, end)
    else if diff == 1 then (f(begin) == value, begin)
    else if diff == 2 then
      if f(begin) == value then (true, begin) else (f(begin + 1) == value, begin + 1)
    else
      var middle := begin + diff / 2;
      if value <= f(middle) then
        var r := Lower(begin, middle + 1, value, f);
        // An occurrence right of the middle forces `f(middle) == value`.
        assert NonDecreasing(f, begin, end) && Occurs(f, begin, end, value) ==> Occurs(f, begin, middle + 1, value) by {
          if NonDecreasing(f, begin, end) && Occurs(f, begin, end, value) {
            var i :| begin <= i < end && f(i) == value;
            if i > middle {
              assert f(middle) <= f(i);
            }
          }
        }
        r
      else
        var r := Lower(middle + 1, end, value, f);
        // Everything up to the middle projects below `value`.
        assert NonDecreasing(f, begin, end) ==> forall j :: begin <= j <= middle ==> f(j) != value by {
          if NonDecreasing(f, begin, end) {
            forall j | begin <= j <= middle
              ensures f(j) != value
            {
              assert f(j) <= f(middle);
            }
          }
        }
        r
  }

  /** On a non-decreasing projection the two searches agree on whether
      `value` occurs, and when it does they bracket its occurrences: every
      index between the lower and the upper result projects to `value`, and
      none outside them does. */
  lemma UpperLowerBracket(begin: int, end: int, value: int, f: int -> int)
    requires begin <= end && NonDecreasing(f, begin, end)
    ensures Upper(begin, end, value, f).0 == Lower(begin, end, value, f).0
    ensures Upper(begin, end, value, f).0 ==>
      && Lower(begin, end, value, f).1 <= Upper(begin, end, value, f).1
      && forall j :: begin <= j < end ==>
           (f(j) == value <==> Lower(begin, end, value, f).1 <= j <= Upper(begin, end, value, f).1)
  {
    var up, lo := Upper(begin, end, value, f), Lower(begin, end, value, f);
    if up.0 {
      forall j | begin <= j < end
        ensures f(j) == value <==> lo.1 <= j <= up.1
      {
        if lo.1 <= j <= up.1 {
          assert f(lo.1) <= f(j) <= f(up.1);
        }
      }
    }
  }

  /** With `f(0) = f(1) = 1` and value 1, `Upper` finds index 1 and `Lower`
      index 0; on a projection that is not non-decreasing a present value can
      be missed (`0, 9, 1` searched for 1). */
  lemma SearchExamples()
    ensures Upper(0, 2, 1, x => 1) == (true, 1)
    ensures Lower(0, 2, 1, x => 1) == (true, 0)
    ensures Upper(0, 3, 1, x => if x == 1 then 9 else if x == 2 then 1 else 0) == (false, 0)
  {
  }
}
