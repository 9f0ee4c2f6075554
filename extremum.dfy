/** Variadic `min`, `max`, `min_ref` and `max_ref` of useful.hpp.

    The argument pack is a non-empty `seq<int>`. The fold
    `((m = (args < m) ? args : m), ...)` visits every argument in order,
    starting with `m` set to the first one, and replaces `m` only on a strict
    comparison, so ties keep the earliest argument. For the reference versions
    an argument is identified by its position, and a parallel `seq<bool>` says
    which arguments are const lvalues. */
module Extremum {

  /** `args[k]` is what the strict fold selects: no argument beats it, and
      every argument before it is strictly worse (it is the first of the
      best). */
  ghost predicate SelectedAt(minimum: bool, args: seq<int>, k: nat)
  {
    && k < |args|
    && (forall j :: 0 <= j < |args| ==> if minimum then args[k] <= args[j] else args[k] >= args[j])
    && (forall j :: 0 <= j < k ==> if minimum then args[j] > args[k] else args[j] < args[k])
  }

  /** `min_max_1<Minimum, Result>(args...)`: both overloads (for a pack of one
      type the winner is tracked by pointer, otherwise by value) select the same
      value. */
  method MinMax(minimum: bool, args: seq<int>) returns (m: int)
    requires |args| >= 1
    ensures m in args
    ensures forall a :: a in args ==> if minimum then m <= a else m >= a
  {
    m := args[0];
    var i := 0;
    while i < |args|
      invariant 0 <= i <= |args|
      invariant m in args[..i] || (i == 0 && m == args[0])
      invariant forall j :: 0 <= j < i ==> if minimum then m <= args[j] else m >= args[j]
    {
      if minimum {
        if args[i] < m { m := args[i]; }
      } else {
        if args[i] > m { m := args[i]; }
      }
      i := i + 1;
    }
    assert args[..i] == args;
  }

  /** `min(args...)`. */
  method Min(args: seq<int>) returns (m: int)
    requires |args| >= 1
    ensures m in args && forall a :: a in args ==> m <= a
  {
    m := MinMax(true, args);
  }

  /** `max(args...)`. */
  method Max(args: seq<int>) returns (m: int)
    requires |args| >= 1
    ensures m in args && forall a :: a in args ==> m >= a
  {
    m := MinMax(false, args);
  }

  /** The compile-time fold `(is_const_v<remove_reference_t<Ts>> || ...)`. */
  function AnyConst(isConst: seq<bool>): (r: bool)
    ensures r <==> exists j :: 0 <= j < |isConst| && isConst[j]
  {
    if isConst == [] then false else isConst[0] || AnyConst(isConst[1..])
  }

  /** `min_max_ref_1<Minimum>(args...)`: all arguments are lvalues of the same
      type; the result refers to the selected argument's storage (its position
      `k`), and it is a const reference iff some argument is const. */
  method MinMaxRef(minimum: bool, args: seq<int>, isConst: seq<bool>) returns (k: nat, readOnly: bool)
    requires |args| >= 1 && |isConst| == |args|
    ensures SelectedAt(minimum, args, k)
    ensures readOnly <==> exists j :: 0 <= j < |isConst| && isConst[j]
  {
    readOnly := AnyConst(isConst);
    k := 0;
    var i := 0;
    while i < |args|
      invariant 0 <= i <= |args| && k < |args|
      invariant k <= i
      invariant forall j :: 0 <= j < i ==> if minimum then args[k] <= args[j] else args[k] >= args[j]
      invariant forall j :: 0 <= j < k ==> if minimum then args[j] > args[k] else args[j] < args[k]
    {
      if minimum {
        if args[i] < args[k] { k := i; }
      } else {
        if args[i] > args[k] { k := i; }
      }
      i := i + 1;
    }
  }

  /** `min_ref(args...)`. */
  method MinRef(args: seq<int>, isConst: seq<bool>) returns (k: nat, readOnly: bool)
    requires |args| >= 1 && |isConst| == |args|
    ensures SelectedAt(true, args, k)
    ensures readOnly <==> true in isConst
  {
    k, readOnly := MinMaxRef(true, args, isConst);
  }

  /** `max_ref(args...)`. */
  method MaxRef(args: seq<int>, isConst: seq<bool>) returns (k: nat, readOnly: bool)
    requires |args| >= 1 && |isConst| == |args|
    ensures SelectedAt(false, args, k)
    ensures readOnly <==> true in isConst
  {
    k, readOnly := MinMaxRef(false, args, isConst);
  }

  /** The strict fold selects one well-defined position. */
  lemma SelectedUnique(minimum: bool, args: seq<int>, k: nat, l: nat)
    requires SelectedAt(minimum, args, k) && SelectedAt(minimum, args, l)
    ensures k == l
  {
    // Naming both selected arguments lets each predicate's quantifiers speak
    // about the other position.
    var atK, atL := args[k], args[l];
    assert if minimum then atK <= atL && atL <= atK else atK >= atL && atL >= atK;
  }

  /** Among `5, 5` both `min_ref` and `max_ref` pick the first argument; with
      one const argument the selected reference is const, and with none it is
      not. */
  lemma TieKeepsEarliest()
    ensures SelectedAt(true, [5, 5], 0) && SelectedAt(false, [5, 5], 0)
    ensures !SelectedAt(false, [5, 5], 1)
    ensures AnyConst([true, false]) && !AnyConst([false, false])
  {
    assert [true, false][0];
    assert !([5, 5][0] < [5, 5][1]);
  }
}
