/** The compile-time algebra over `std::tuple<...>` packs of the `meta` namespace.

    A C++ type is modelled by a `Tag`: a plain (non-template) type, an
    instantiation `G<A1, ..., An>` of a class template `G`, or a const- or
    reference-qualified type. The element pack of a `std::tuple<Ts...>` is a
    `seq<Tag>`, and the tuple type itself is `Inst(TupleCtor, Ts)`.

    Every `enable_if_t` guard, and every pack size or template kind for which
    an instantiation does not compile, becomes a `requires`: such a build-time
    rejection in the source is a call the verifier refuses here. Template
    arity is not recorded, so an instantiation with the wrong number of
    arguments is not refused (see the README, Left out). */
module TypeSeq {
  import opened Seqs

  /** The identity of a class template such as `std::vector` or `std::tuple`. */
  type Ctor = nat

  /** The identity of `std::tuple`. */
  const TupleCtor: Ctor := 0

  datatype Tag =
    | Plain(id: nat)
    | Inst(ctor: Ctor, args: seq<Tag>)
    | Const(base: Tag)
    | Ref(base: Tag)

  /** The tuple type `std::tuple<Ts...>`. */
  function TupleOf(ts: seq<Tag>): Tag
  {
    Inst(TupleCtor, ts)
  }

  // ---------------------------------------------------------------------
  // The recursive helpers of `meta::detail`.

  /** `tuple_remove_last_helper<Tuple, N, Types...>` (and the identically shaped
      `tuple_push_back_helper<Tuple, N, Types...>`): while `N > 0`, move element
      `N - 1` of the tuple to the front of the accumulated pack. */
  function TakeOnto(t: seq<Tag>, n: nat, acc: seq<Tag>): (r: seq<Tag>)
    requires n <= |t|
    ensures r == t[..n] + acc
  {
    if n == 0 then acc
    else TakeOnto(t, n - 1, [t[n - 1]] + acc)
  }

  /** `tuple_remove_first_helper<Tuple, N, Ts...>` (and the identically shaped
      `tuple_push_front_helper<Tuple, N, Types...>`): while `N` is not the tuple
      size, append element `N` to the accumulated pack. */
  function AppendFrom(t: seq<Tag>, n: nat, acc: seq<Tag>): (r: seq<Tag>)
    requires n <= |t|
    ensures r == acc + t[n..]
    decreases |t| - n
  {
    if n == |t| then acc
    else AppendFrom(t, n + 1, acc + [t[n]])
  }

  /** `tuple_concat_two_helper<TupleA, IndexA, TupleB, IndexB, Types...>`: first
      copy the rest of `a`, then the rest of `b`. The specialisation for
      `IndexA == |a|` and `IndexB == |b|` is the more specialised one and ends
      the recursion. */
  function ConcatTwoHelper(a: seq<Tag>, ia: nat, b: seq<Tag>, ib: nat, acc: seq<Tag>): (r: seq<Tag>)
    requires ia <= |a| && ib <= |b|
    ensures r == acc + a[ia..] + b[ib..]
    decreases |a| - ia, |b| - ib
  {
    if ia < |a| then ConcatTwoHelper(a, ia + 1, b, ib, acc + [a[ia]])
    else if ib < |b| then ConcatTwoHelper(a, ia, b, ib + 1, acc + [b[ib]])
    else acc
  }

  /** `tuple_concat_two<TupleA, TupleB>`. */
  function ConcatTwo(a: seq<Tag>, b: seq<Tag>): (r: seq<Tag>)
    ensures r == a + b
  {
    ConcatTwoHelper(a, 0, b, 0, [])
  }

  /** `tuple_concat_helper<Result, Tuple, Tuples...>`: a left fold of
      `tuple_concat_two` starting from `result`. The primary template needs at
      least one tuple after `result`. */
  function ConcatHelper(result: seq<Tag>, tuples: seq<seq<Tag>>): (r: seq<Tag>)
    requires |tuples| >= 1
    ensures r == result + Flatten(tuples)
    decreases |tuples|
  {
    if |tuples| == 1 then ConcatTwo(result, tuples[0])
    else ConcatHelper(ConcatTwo(result, tuples[0]), tuples[1..])
  }

  /** `tuple_replace_index_helper<Tp, Index, Tuple, CurIndex, Ts...>`: copy the
      elements from `cur` on, putting `x` where `cur == index`. When
      `index == |t|` the two partial specialisations both match at the end and
      the instantiation is ambiguous; that is the only rejected case. */
  function ReplaceIndexHelper(x: Tag, index: nat, t: seq<Tag>, cur: nat, acc: seq<Tag>): (r: seq<Tag>)
    requires index != |t| && cur <= |t|
    ensures |r| == |acc| + |t| - cur
    ensures r[..|acc|] == acc
    ensures forall k :: |acc| <= k < |r| ==>
              r[k] == (if k - |acc| + cur == index then x else t[k - |acc| + cur])
    decreases |t| - cur
  {
    if cur == |t| then acc
    else if cur == index then ReplaceIndexHelper(x, index, t, cur + 1, acc + [x])
    else ReplaceIndexHelper(x, index, t, cur + 1, acc + [t[cur]])
  }

  /** `tuple_same_n_helper<Tp, N, Types...>`: prepend `x` `n` times. */
  function SameNHelper(x: Tag, n: nat, acc: seq<Tag>): (r: seq<Tag>)
    ensures |r| == n + |acc|
    ensures forall k :: 0 <= k < n ==> r[k] == x
    ensures r[n..] == acc
  {
    if n == 0 then acc
    else SameNHelper(x, n - 1, [x] + acc)
  }

  // ---------------------------------------------------------------------
  // The public templates of `meta`.

  /** `tuple_remove_last_t<Tuple>`, guarded by `tuple_size_v<Tuple> >= 1`. */
  function RemoveLast(t: seq<Tag>): (r: seq<Tag>)
    requires |t| >= 1
    ensures r == t[..|t| - 1]
  {
    TakeOnto(t, |t| - 1, [])
  }

  /** `tuple_remove_last_n_t<Tuple, N>`, guarded by `tuple_size_v<Tuple> >= N`. */
  function RemoveLastN(t: seq<Tag>, n: nat): (r: seq<Tag>)
    requires |t| >= n
    ensures r == t[..|t| - n]
  {
    TakeOnto(t, |t| - n, [])
  }

  /** `tuple_remove_first_t<Tuple>`, guarded by `tuple_size_v<Tuple> >= 1`. */
  function RemoveFirst(t: seq<Tag>): (r: seq<Tag>)
    requires |t| >= 1
    ensures r == t[1..]
  {
    AppendFrom(t, 1, [])
  }

  /** `tuple_remove_first_n_t<Tuple, N>`, guarded by `tuple_size_v<Tuple> >= N`. */
  function RemoveFirstN(t: seq<Tag>, n: nat): (r: seq<Tag>)
    requires |t| >= n
    ensures r == t[n..]
  {
    AppendFrom(t, n, [])
  }

  /** `tuple_push_back_t<Tuple, Types...>`. */
  function PushBack(t: seq<Tag>, ts: seq<Tag>): (r: seq<Tag>)
    ensures r == t + ts
  {
    TakeOnto(t, |t|, ts)
  }

  /** `tuple_push_front_t<Tuple, Types...>`. */
  function PushFront(t: seq<Tag>, ts: seq<Tag>): (r: seq<Tag>)
    ensures r == ts + t
  {
    AppendFrom(t, 0, ts)
  }

  /** `tuple_concat_t<Tuples...>`: the fold from `tuple<>`; at least one tuple. */
  function Concat(tuples: seq<seq<Tag>>): (r: seq<Tag>)
    requires |tuples| >= 1
    ensures r == Flatten(tuples)
  {
    ConcatHelper([], tuples)
  }

  /** `tuple_same_n_t<Tp, N>`. */
  function SameN(x: Tag, n: nat): (r: seq<Tag>)
    ensures |r| == n
    ensures forall k :: 0 <= k < n ==> r[k] == x
  {
    SameNHelper(x, n, [])
  }

  /** `tuple_replace_index_t<Tp, Index, Tuple>`. An index inside the tuple is
      replaced; an index past its end leaves it unchanged. */
  function ReplaceIndex(x: Tag, index: nat, t: seq<Tag>): (r: seq<Tag>)
    requires index != |t|
    ensures |r| == |t|
    ensures index < |t| ==> r[index] == x
    ensures forall k :: 0 <= k < |t| && k != index ==> r[k] == t[k]
  {
    ReplaceIndexHelper(x, index, t, 0, [])
  }

  /** `tuple_apply_to_clean_t<Clean, Tuple>`: `Clean<Ts...>` for `Tuple =
      tuple<Ts...>`; only a `std::tuple` has a specialisation. */
  function ApplyToClean(clean: Ctor, tuple: Tag): Tag
    requires tuple.Inst? && tuple.ctor == TupleCtor
  {
    Inst(clean, tuple.args)
  }

  /** What `clean<Tp<Ts...>>` exposes: the template alias `type<Types...>`,
      represented by the template's identity, and `args_tuple`. */
  datatype Decomposed = Decomposed(ctor: Ctor, argsTuple: Tag)

  /** `clean<Tp>`: only a template instantiation has a specialisation. */
  function Clean(t: Tag): (r: Decomposed)
    requires t.Inst?
    ensures r.argsTuple.Inst? && r.argsTuple.ctor == TupleCtor
    ensures ApplyToClean(r.ctor, r.argsTuple) == t
  {
    Decomposed(t.ctor, TupleOf(t.args))
  }

  /** `clean<X>::type<Types...>`: the template of `X` applied to `types`. */
  function Rebind(d: Decomposed, types: seq<Tag>): Tag
  {
    Inst(d.ctor, types)
  }

  /** `std::decay_t` on the qualifiers of the model: strip every outer const
      and reference qualifier (on a well-formed C++ type there is at most one of
      each). */
  function Decay(t: Tag): (r: Tag)
    ensures !r.Const? && !r.Ref?
    ensures !t.Const? && !t.Ref? ==> r == t
  {
    match t
    case Const(b) => Decay(b)
    case Ref(b) => Decay(b)
    case _ => t
  }

  /** `is_same_tmpl<Expected, Tested>::value`. */
  function IsSameTmpl(expected: Ctor, tested: Tag): (r: bool)
    ensures r <==> exists args :: Decay(tested) == Inst(expected, args)
  {
    var d := Decay(tested);
    d.Inst? && d.ctor == expected
  }

  /** `first_t<Ts...>`: element 0 of a non-empty pack. */
  function FirstT(ts: seq<Tag>): Tag
    requires |ts| >= 1
  {
    ts[0]
  }

  /** `last_t<Ts...>`: the last element of a non-empty pack. */
  function LastT(ts: seq<Tag>): Tag
    requires |ts| >= 1
  {
    ts[|ts| - 1]
  }

  /** The fold `(is_same_v<Ts, T> && ...)`, an empty pack giving true. */
  function AllSameAs(ts: seq<Tag>, t: Tag): (r: bool)
    ensures r <==> forall k :: 0 <= k < |ts| ==> ts[k] == t
  {
    if ts == [] then true else ts[0] == t && AllSameAs(ts[1..], t)
  }

  /** `is_same_all<Ts...>::value`; its member `type` is `first_t<Ts...>`, so the
      pack must not be empty. */
  function IsSameAll(ts: seq<Tag>): (r: bool)
    requires |ts| >= 1
    ensures r <==> forall i, j :: 0 <= i < |ts| && 0 <= j < |ts| ==> ts[i] == ts[j]
  {
    AllSameAs(ts, FirstT(ts))
  }

  // ---------------------------------------------------------------------
  // Laws of the algebra.

  /** The round trip of `clean`: rebuilding the decomposed template with its own
      argument pack gives back the instantiation. */
  lemma CleanRoundTrip(x: Tag)
    requires x.Inst?
    ensures Rebind(Clean(x), Clean(x).argsTuple.args) == x
    ensures ApplyToClean(x.ctor, Clean(x).argsTuple) == x
  {
  }

  /** `apply_to_clean` keeps the container kind while changing its arguments. */
  lemma ApplyToCleanKeepsKind(x: Tag, ts: seq<Tag>)
    requires x.Inst?
    ensures IsSameTmpl(Clean(x).ctor, ApplyToClean(Clean(x).ctor, TupleOf(ts)))
    ensures ApplyToClean(Clean(x).ctor, TupleOf(ts)).args == ts
  {
    assert Decay(Inst(x.ctor, ts)) == Inst(x.ctor, ts);
  }

  /** `clean` undoes `tuple_apply_to_clean`: the template and the argument
      tuple are recovered. */
  lemma CleanOfApplyToClean(g: Ctor, ts: seq<Tag>)
    ensures Clean(ApplyToClean(g, TupleOf(ts))) == Decomposed(g, TupleOf(ts))
  {
  }

  /** Rebinding a decomposed template to new arguments gives an instantiation
      of the same template whose `clean` exposes exactly those arguments. */
  lemma RebindLaws(d: Decomposed, ts: seq<Tag>)
    ensures Clean(Rebind(d, ts)) == Decomposed(d.ctor, TupleOf(ts))
    ensures IsSameTmpl(d.ctor, Rebind(d, ts))
  {
    assert Decay(Rebind(d, ts)) == Inst(d.ctor, ts);
  }

  /** Const and reference qualifiers make no difference to the decayed type. */
  lemma DecayQualifiers(x: Tag)
    ensures Decay(Const(x)) == Decay(x) == Decay(Ref(x))
    ensures Decay(Ref(Const(x))) == Decay(x)
  {
  }

  lemma {:induction false} DecayIdempotent(t: Tag)
    ensures Decay(Decay(t)) == Decay(t)
  {
    match t
    case Const(b) => DecayIdempotent(b);
    case Ref(b) => DecayIdempotent(b);
    case _ =>
  }

  /** `is_same_tmpl_v` decays its argument before asking `is_same_tmpl`, which
      decays it again; the two agree. */
  lemma IsSameTmplVAgrees(expected: Ctor, tested: Tag)
    ensures IsSameTmpl(expected, Decay(tested)) == IsSameTmpl(expected, tested)
  {
    DecayIdempotent(tested);
  }

  /** Qualifiers do not hide the template: `const G<A>&` is some `G<...>`. */
  lemma IsSameTmplThroughQualifiers(g: Ctor, args: seq<Tag>)
    ensures IsSameTmpl(g, Ref(Const(Inst(g, args))))
    ensures forall h: Ctor :: h != g ==> !IsSameTmpl(h, Ref(Const(Inst(g, args))))
  {
    assert Decay(Ref(Const(Inst(g, args)))) == Decay(Const(Inst(g, args))) == Inst(g, args);
  }

  /** A plain type is not an instantiation of any template. */
  lemma PlainIsNoTemplate(g: Ctor, id: nat)
    ensures !IsSameTmpl(g, Plain(id)) && !IsSameTmpl(g, Const(Plain(id)))
    ensures !IsSameTmpl(g, Ref(Plain(id))) && !IsSameTmpl(g, Ref(Const(Plain(id))))
  {
    DecayQualifiers(Plain(id));
    DecayQualifiers(Const(Plain(id)));
  }

  lemma {:induction false} ConcatAssociative(a: seq<Tag>, b: seq<Tag>, c: seq<Tag>)
    ensures Concat([Concat([a, b]), c]) == Concat([a, Concat([b, c])])
    ensures Concat([Concat([a, b]), c]) == Concat([a, b, c])
  {
    assert Flatten([c]) == c by { assert [c][1..] == []; }
    assert Flatten([b, c]) == b + c by { assert [b, c][1..] == [c]; }
    assert Flatten([a, b]) == a + b by { assert [a, b][1..] == [b]; assert Flatten([b]) == b by { assert [b][1..] == []; } }
    assert Flatten([a, b, c]) == a + (b + c) by { assert [a, b, c][1..] == [b, c]; }
    assert Flatten([a + b, c]) == (a + b) + c by { assert [a + b, c][1..] == [c]; }
    assert Flatten([a, b + c]) == a + (b + c) by { assert [a, b + c][1..] == [b + c]; assert Flatten([b + c]) == b + c by { assert [b + c][1..] == []; } }
  }

  /** The arity of a concatenation is the sum of the arities. */
  lemma ConcatLength(tuples: seq<seq<Tag>>)
    requires |tuples| >= 1
    ensures |Concat(tuples)| == SumLengths(tuples)
  {
    FlattenLength(tuples);
  }

  /** Concatenating a sequence of packs after another is the concatenation of
      the two results. */
  lemma ConcatSplits(ts: seq<seq<Tag>>, us: seq<seq<Tag>>)
    requires |ts| >= 1 && |us| >= 1
    ensures Concat(ts + us) == Concat([Concat(ts), Concat(us)])
  {
    FlattenAppend(ts, us);
    assert Flatten([Concat(us)]) == Concat(us) by { assert [Concat(us)][1..] == []; }
    assert [Concat(ts), Concat(us)][1..] == [Concat(us)];
  }

  lemma PushBackArity(s: seq<Tag>, x: Tag)
    ensures |PushBack(s, [x])| == |s| + 1
    ensures RemoveLast(PushBack(s, [x])) == s
    ensures LastT(PushBack(s, [x])) == x
  {
  }

  lemma PushFrontArity(s: seq<Tag>, x: Tag)
    ensures |PushFront(s, [x])| == |s| + 1
    ensures RemoveFirst(PushFront(s, [x])) == s
    ensures FirstT(PushFront(s, [x])) == x
  {
  }

  /** Removing everything gives the empty pack, from either end, and the
      single-element removals are the `N = 1` cases. */
  lemma RemoveAll(s: seq<Tag>)
    ensures RemoveLastN(s, |s|) == [] && RemoveFirstN(s, |s|) == []
    ensures |s| >= 1 ==> RemoveLast(s) == RemoveLastN(s, 1) && RemoveFirst(s) == RemoveFirstN(s, 1)
  {
  }

  /** Removing `n` from the back and `|s| - n` from the front splits the pack. */
  lemma RemoveSplits(s: seq<Tag>, n: nat)
    requires n <= |s|
    ensures RemoveLastN(s, n) + RemoveFirstN(s, |s| - n) == s
  {
  }

  /** Replacing an element by itself is the identity, and replacing twice at the
      same index keeps the second. */
  lemma ReplaceIndexLaws(x: Tag, y: Tag, index: nat, t: seq<Tag>)
    requires index < |t|
    ensures ReplaceIndex(t[index], index, t) == t
    ensures ReplaceIndex(y, index, ReplaceIndex(x, index, t)) == ReplaceIndex(y, index, t)
  {
  }

  /** `tuple_same_n` of a type is homogeneous in the sense of `is_same_all`. */
  lemma SameNIsSameAll(x: Tag, n: nat)
    requires n >= 1
    ensures IsSameAll(SameN(x, n)) && FirstT(SameN(x, n)) == x
  {
  }
}
