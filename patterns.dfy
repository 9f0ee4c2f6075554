/** Patterns: a value to compare with, or a predicate to call.

    In the source a pattern is any object, and overload resolution decides
    whether it is called or compared. Here the caller states what the object
    is:
      - `Value(v)`: an object that cannot be invoked on an element, compared
        with `==`;
      - `Pred(p)`: an invocable object of another type than the element;
      - `SelfCallable(v, call)`: an object of the element's own type that is
        also invocable on an element (for example an element type with an
        `operator()(const E&)` returning bool).
    The two rules of the library differ exactly on the third kind. */
module Patterns {

  datatype Pattern<!E> =
    | Value(v: E)
    | Pred(p: E -> bool)
    | SelfCallable(v: E, call: E -> bool)

  /** The rule of `split_check_helper` and of the `check` lambda of the
      single-remover `remove_associative` in useful.hpp: a pattern is called
      only when it is invocable with the element AND is not of the element's
      own (decayed) type; otherwise it is compared. */
  function MatchGuarded<E(==)>(e: E, p: Pattern<E>): bool
  {
    match p
    case Value(v) => e == v
    case Pred(f) => f(e)
    case SelfCallable(v, _) => e == v
  }

  /** The rule of `stf` in useful/utils.hpp: a pattern is called whenever it is
      invocable with the element, with no guard on its type. */
  function Stf<E(==)>(e: E, p: Pattern<E>): bool
  {
    match p
    case Value(v) => e == v
    case Pred(f) => f(e)
    case SelfCallable(_, f) => f(e)
  }

  /** `split_check_helper<N>(t, v)`: the patterns from `n` on, tried left to
      right; the first that matches ends the search with true, and running off
      the end of the tuple gives false. */
  function SplitCheck<E(==)>(ps: seq<Pattern<E>>, n: nat, e: E): (r: bool)
    requires n <= |ps|
    ensures r <==> exists k :: n <= k < |ps| && MatchGuarded(e, ps[k])
    decreases |ps| - n
  {
    if n == |ps| then false
    else if MatchGuarded(e, ps[n]) then true
    else SplitCheck(ps, n + 1, e)
  }

  /** The `check` lambda of `split`: `split_check_helper<0>` over all the
      delimiters. */
  function IsDelimiter<E(==)>(ps: seq<Pattern<E>>, e: E): (r: bool)
    ensures r <==> exists k :: 0 <= k < |ps| && MatchGuarded(e, ps[k])
  {
    SplitCheck(ps, 0, e)
  }

  /** `stf_any(e, ps...)`: the fold `(stf(e, ps) || ...)`, false for no
      patterns. */
  function StfAny<E(==)>(e: E, ps: seq<Pattern<E>>): (r: bool)
    ensures r <==> exists k :: 0 <= k < |ps| && Stf(e, ps[k])
  {
    if ps == [] then false
    else Stf(e, ps[0]) || StfAny(e, ps[1..])
  }

  /** `stf_all(e, ps...)`: the fold `(stf(e, ps) && ...)`, true for no
      patterns. */
  function StfAll<E(==)>(e: E, ps: seq<Pattern<E>>): (r: bool)
    ensures r <==> forall k :: 0 <= k < |ps| ==> Stf(e, ps[k])
  {
    if ps == [] then true
    else Stf(e, ps[0]) && StfAll(e, ps[1..])
  }

  /** `stf_any_obj(ps...)`: a predicate object holding the patterns. */
  function StfAnyObj<E(==, !new)>(ps: seq<Pattern<E>>): (f: E -> bool)
    ensures forall e :: f(e) <==> exists k :: 0 <= k < |ps| && Stf(e, ps[k])
  {
    e => StfAny(e, ps)
  }

  /** `stf_all_obj(ps...)`: a predicate object holding the patterns. */
  function StfAllObj<E(==, !new)>(ps: seq<Pattern<E>>): (f: E -> bool)
    ensures forall e :: f(e) <==> forall k :: 0 <= k < |ps| ==> Stf(e, ps[k])
  {
    e => StfAll(e, ps)
  }

  /** `stf_first_obj(p)`: tests the first member of a pair. */
  function StfFirstObj<A(==), B>(p: Pattern<A>): ((A, B)) -> bool
  {
    (x: (A, B)) => Stf(x.0, p)
  }

  /** `stf_second_obj(p)`: tests the second member of a pair. */
  function StfSecondObj<A, B(==)>(p: Pattern<B>): ((A, B)) -> bool
  {
    (x: (A, B)) => Stf(x.1, p)
  }

  /** `stf_nth_obj<N>(p)`: tests component `n` of a record, which must have
      one (`std::get<N>` does not compile otherwise). */
  function StfNthObj<E(==)>(n: nat, p: Pattern<E>): seq<E> --> bool
  {
    x requires n < |x| => Stf(x[n], p)
  }

  // ---------------------------------------------------------------------
  // How the two rules relate.

  /** On values and on predicates of another type the two rules agree. */
  lemma RulesAgreeOffSelfCallable<E>(e: E, p: Pattern<E>)
    requires !p.SelfCallable?
    ensures MatchGuarded(e, p) == Stf(e, p)
  {
  }

  /** On an object of the element's own type that is also invocable, the
      guarded rule compares and `stf` calls: an element equal to the object is
      matched by the first even when the call says no, and an element the call
      accepts is matched by the second even when it differs from the object. */
  lemma RulesDifferOnSelfCallable()
    ensures MatchGuarded(1, SelfCallable(1, (x: int) => false)) && !Stf(1, SelfCallable(1, (x: int) => false))
    ensures !MatchGuarded(2, SelfCallable(1, (x: int) => true)) && Stf(2, SelfCallable(1, (x: int) => true))
  {
  }

  /** A delimiter list and an `stf_any` over the same patterns agree when no
      pattern is of the element's own type and invocable. */
  lemma {:induction false} DelimiterIsStfAny<E>(ps: seq<Pattern<E>>, e: E)
    requires forall k :: 0 <= k < |ps| ==> !ps[k].SelfCallable?
    ensures IsDelimiter(ps, e) == StfAny(e, ps)
  {
    forall k | 0 <= k < |ps|
      ensures MatchGuarded(e, ps[k]) == Stf(e, ps[k])
    {
      RulesAgreeOffSelfCallable(e, ps[k]);
    }
  }

  /** On a two-element record, `stf_nth_obj<0>` and `stf_nth_obj<1>` test what
      `stf_first_obj` and `stf_second_obj` test on a pair. */
  lemma NthObjOnPairs<E>(p: Pattern<E>, a: E, b: E)
    ensures StfNthObj(0, p)([a, b]) == StfFirstObj<E, E>(p)((a, b))
    ensures StfNthObj(1, p)([a, b]) == StfSecondObj<E, E>(p)((a, b))
  {
  }

  /** The empty fold and the one-pattern fold of `stf_any` and `stf_all`. */
  lemma StfAnyAllUnits<E>(e: E, ps: seq<Pattern<E>>)
    ensures |ps| == 1 ==> StfAny(e, ps) == StfAll(e, ps)
    ensures ps == [] ==> !StfAny(e, ps) && StfAll(e, ps)
  {
  }
}
