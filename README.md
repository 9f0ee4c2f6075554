# useful-functions in Dafny

A model of the core of the header-only C++ library *useful-functions*. It covers two headers:

- **useful.hpp**:
  - the compile-time algebra over `std::tuple` type packs (`meta::tuple_*`, `clean`, `is_same_tmpl`, `is_same_all`, `first_t`, `last_t`);
  - the variadic `min`/`max`/`min_ref`/`max_ref`;
  - `split` and `split<N>` of a container on delimiter patterns;
  - `position_pairs` and `sort_save_position`;
  - the single-remover `remove_associative`.
- **useful/utils.hpp**:
  - the pattern tester `stf`, its folds `stf_any`/`stf_all` and the predicate objects built from them;
  - `add_positions` and `add_positions_and_sort`;
  - the multi-pattern `remove_associative` and `remove_associative_copy`;
  - the recursive `binary_search_upper` and `binary_search_lower`.

The model has one module per concern, and each module is one file:

| module | file | covers |
|---|---|---|
| `Seqs` | `seqs.dfy` | flattening a sequence of sequences |
| `TypeSeq` | `type_seq.dfy` | C++ types as a `Tag` datatype; a tuple's element pack is a `seq<Tag>`. Every recursive helper template is a recursive function. Every `enable_if` guard, and every pack size or template kind for which an instantiation does not compile, is a `requires`; template arity is not checked (see Left out). |
| `Patterns` | `patterns.dfy` | a pattern is `Value(v)`, `Pred(p)` or `SelfCallable(v, call)` |
| `Split` | `split.dfy` | the runs of a container, defined by recursion (`Segments`), and the loop of `split` proved to compute them |
| `Positions` | `positions.dfy` | tagging with positions, and an in-place sort on an `array` proved to give a sorted permutation |
| `Extremum` | `extremum.dfy` | min/max folds as loops over a `seq<int>`. A reference result is the position of the selected argument. |
| `Associative` | `associative.dfy` | a container class `AssocMap` holding a `map`, and the removers erasing from it in place |
| `BinarySearch` | `binary_search.dfy` | the two searches as recursive functions |

Patterns need a note on the two matching rules. In C++, overload resolution decides whether a pattern is called or compared; here the caller says which kind the pattern is. The library has two rules:

- `split_check_helper` and the useful.hpp `remove_associative` use `MatchGuarded`: call the pattern only when it is invocable AND is not of the element's own type.
- `stf` uses `Stf`: call the pattern whenever it is invocable.

They differ exactly on `SelfCallable` patterns.

`position_pairs`/`sort_save_position` of useful.hpp compute the same results as `add_positions`/`add_positions_and_sort` of useful/utils.hpp. They accept different containers, which the model does not distinguish (see Left out). One pair of members models both:

- `Positions.AddPositions` models useful.hpp:559-570;
- `Positions.AddPositionsAndSort` models useful.hpp:572-581.

## Model

| member | source | states |
|---|---|---|
| TypeSeq.TakeOnto | useful.hpp:100-110 | moving elements `N-1 .. 0` of the tuple to the front of the pack gives `t[..n] + acc` (also the shape of `tuple_push_back_helper`, useful.hpp:165-175) |
| TypeSeq.AppendFrom | useful.hpp:112-122 | appending elements `N .. size-1` gives `acc + t[n..]` (also the shape of `tuple_push_front_helper`, useful.hpp:177-187) |
| TypeSeq.ConcatTwoHelper | useful.hpp:124-145 | copying the rest of `a`, then the rest of `b`, gives `acc + a[ia..] + b[ib..]` |
| TypeSeq.ConcatTwo | useful.hpp:147-151 | `tuple_concat_two<A, B>` is `A` followed by `B` |
| TypeSeq.ConcatHelper | useful.hpp:153-163 | the left fold from `Result` is `Result` followed by the flattening of the tuples; it needs at least one tuple |
| TypeSeq.ReplaceIndexHelper | useful.hpp:189-206 | the output has the accumulated prefix, then the input from `cur`, with `x` at `index`; the one case both specialisations match (`index == size`) is excluded |
| TypeSeq.SameNHelper | useful.hpp:208-218 | prepending `x` `n` times: `n` copies of `x`, then the accumulated pack |
| TypeSeq.RemoveLast | useful.hpp:246-253 | drops the last element; needs size >= 1 |
| TypeSeq.RemoveLastN | useful.hpp:255-262 | drops the last `N` elements; needs size >= N |
| TypeSeq.RemoveFirst | useful.hpp:264-271 | drops the first element; needs size >= 1 |
| TypeSeq.RemoveFirstN | useful.hpp:273-280 | drops the first `N` elements; needs size >= N |
| TypeSeq.PushBack | useful.hpp:282-289 | `S + Ts` |
| TypeSeq.PushFront | useful.hpp:291-298 | `Ts + S` |
| TypeSeq.Concat | useful.hpp:300-307 | the fold from `tuple<>` is the flattening of the packs |
| TypeSeq.SameN | useful.hpp:309-316 | exactly `N` copies of `Tp` |
| TypeSeq.ReplaceIndex | useful.hpp:318-325 | same size; `Tp` at `Index` when `Index` is inside the tuple; every other position is unchanged; an `Index` past the end changes nothing |
| TypeSeq.CleanOfApplyToClean | useful.hpp:327-334 | `clean` of `tuple_apply_to_clean<G, tuple<Ts...>>` recovers the template `G` and the argument tuple `tuple<Ts...>`; `ApplyToClean` itself is defined only for a `std::tuple` argument |
| TypeSeq.Clean | useful.hpp:336-346 | defined for a template instantiation; `args_tuple` is a `std::tuple`, and applying the template to it rebuilds the input |
| TypeSeq.RebindLaws | useful.hpp:342-343 | `clean<X>::type<Types...>` is an instantiation of the template of `X` (as `is_same_tmpl` sees it) whose `args_tuple` is exactly `tuple<Types...>` |
| TypeSeq.Decay | useful.hpp:355 | the decayed type carries no outer const or reference, and an unqualified type is left as it is |
| TypeSeq.DecayQualifiers | useful.hpp:355 | adding a const or a reference qualifier, or both, does not change the decayed type |
| TypeSeq.IsSameTmpl | useful.hpp:348-355 | true iff the decayed type is some instantiation of `Expected` |
| TypeSeq.AllSameAs | useful.hpp:368 | the fold `(is_same_v<Ts, type> && ...)` holds iff every element equals `type`; an empty pack gives true |
| TypeSeq.IsSameAll | useful.hpp:363-372 | true iff all elements of the (non-empty) pack are equal |
| TypeSeq.CleanRoundTrip | useful.hpp:336-346 | rebinding `clean<X>` to its own `args_tuple` gives back `X` |
| TypeSeq.ApplyToCleanKeepsKind | useful.hpp:327-346 | applying `clean<X>`'s template to new arguments gives the same template with those arguments, as `is_same_tmpl` sees it |
| TypeSeq.DecayIdempotent | useful.hpp:355 | decaying twice is decaying once |
| TypeSeq.IsSameTmplVAgrees | useful.hpp:348-355 | `is_same_tmpl_v` (decays first) and `is_same_tmpl` agree |
| TypeSeq.IsSameTmplThroughQualifiers | useful.hpp:348-355 | `const G<A>&` is an instantiation of `G` and of no other template |
| TypeSeq.PlainIsNoTemplate | useful.hpp:229-230 | a plain type, bare or const- or reference-qualified, is no template's instantiation |
| TypeSeq.ConcatAssociative | useful.hpp:300-307 | concatenation is associative, and nesting agrees with the flat concatenation |
| TypeSeq.ConcatLength | useful.hpp:300-307 | the size of a concatenation is the sum of the sizes |
| TypeSeq.ConcatSplits | useful.hpp:300-307 | concatenating `ts + us` is concatenating the two concatenations |
| TypeSeq.PushBackArity | useful.hpp:282-289 | pushing one type at the back adds one; `remove_last` undoes it; `last_t` is the pushed type |
| TypeSeq.PushFrontArity | useful.hpp:291-298 | pushing one type at the front adds one; `remove_first` undoes it; `first_t` is the pushed type |
| TypeSeq.RemoveAll | useful.hpp:246-280 | removing all elements from either end leaves `tuple<>`; the single removals are the `N = 1` cases |
| TypeSeq.RemoveSplits | useful.hpp:255-280 | `remove_last_n<N>` followed by `remove_first_n<size - N>` is the original pack |
| TypeSeq.ReplaceIndexLaws | useful.hpp:318-325 | replacing an element by itself is the identity; a second replacement at the same index overrides the first |
| TypeSeq.SameNIsSameAll | useful.hpp:309-316 | `tuple_same_n` is homogeneous for `is_same_all`, and its first type is `Tp` |
| Patterns.SplitCheck | useful.hpp:495-514 | true iff some pattern from `N` on matches under the guarded rule |
| Patterns.IsDelimiter | useful.hpp:525-528 | true iff some delimiter matches the element under the guarded rule |
| Patterns.StfAny | useful/utils.hpp:73-77 | true iff some pattern matches under `stf`; no patterns gives false |
| Patterns.StfAll | useful/utils.hpp:79-83 | true iff every pattern matches under `stf`; no patterns gives true |
| Patterns.StfAnyObj | useful/utils.hpp:85-89 | the object's result on any element is that of `stf_any` over the captured patterns |
| Patterns.StfAllObj | useful/utils.hpp:91-95 | the object's result on any element is that of `stf_all` over the captured patterns |
| Patterns.NthObjOnPairs | useful/utils.hpp:109-113 | on a two-component record, `stf_nth_obj<0>` and `stf_nth_obj<1>` test what `stf_first_obj` and `stf_second_obj` test on the pair |
| Patterns.RulesAgreeOffSelfCallable | useful.hpp:505-509 | the law of `MatchGuarded` (the guarded rule) against `Stf`: they agree on values and on predicates of another type |
| Patterns.RulesDifferOnSelfCallable | useful/utils.hpp:64-71 | the law of `Stf` against `MatchGuarded`: on a self-typed invocable pattern the guarded rule compares and `stf` calls, with a witness each way |
| Patterns.DelimiterIsStfAny | useful.hpp:495-514 | with no self-typed invocable delimiter, the `split` check is `stf_any` |
| Patterns.StfAnyAllUnits | useful/utils.hpp:73-83 | the empty folds (false / true), and the one-pattern folds agree |
| Split.RunLength | useful.hpp:530-547 | the longest delimiter-free prefix: nothing in it is a delimiter, and the element after it is one |
| Split.SegmentsAreRuns | useful.hpp:518-550 | every run is non-empty and delimiter-free |
| Split.SegmentsFlatten | useful.hpp:518-550 | the runs concatenated are the input with the delimiters removed |
| Split.DelimiterSeparates | useful.hpp:518-550 | a delimiter separates runs: the runs of `a + [d] + b` are those of `a` then those of `b`, so repeated delimiters make no empty run |
| Split.SplitOnRepeatedValue | useful.hpp:518-550 | `[1, 2, 2, 3]` on the value 2 gives `[1]`, `[3]` |
| Split.SplitOnValue | useful.hpp:518-550 | `[1, 2, 3, 4, 5]` on the value 3 gives `[1, 2]`, `[4, 5]` |
| Split.SplitOnPredicate | useful.hpp:518-550 | `[1, 2, 3, 4, 5]` on "is even" gives `[1]`, `[3]`, `[5]` |
| Split.CreateSplitVector | useful.hpp:478-486 | one container per bound, holding exactly that slice, in order |
| Split.Split | useful.hpp:518-550 | the loop over the container, with its `empty_seq` flag and patched bounds, yields exactly the runs |
| Split.CreateSplitTuple | useful.hpp:488-493 | the first `N` containers of the vector, in order; the vector must hold at least `N` |
| Split.SplitN | useful.hpp:552-557 | `split<N>` is the first `N` runs |
| Positions.AddPositions | useful/utils.hpp:137-152 | same length, and `result[j] == (j, x[j])` |
| Positions.SortBySecond | useful/utils.hpp:158-161 | in place, the elements end sorted by `compare` on `.second` and are a permutation of what was there |
| Positions.AddPositionsAndSort | useful/utils.hpp:154-163 | a permutation of `add_positions(c)`, sorted by `compare` on `.second`, and each pair still satisfies `c[index] == value` |
| Positions.TaggedIndicesDistinct | useful/utils.hpp:154-163 | in any permutation of the tagged container, the indices are pairwise distinct |
| Positions.TaggedOnce | useful/utils.hpp:137-152 | each `(index, value)` pair occurs at most once in the tagged container |
| Extremum.MinMax | useful.hpp:394-423 | the result is one of the arguments, and no argument is less (minimum) or greater (maximum) |
| Extremum.Min | useful.hpp:456-460 | the result is an argument no argument is less than |
| Extremum.Max | useful.hpp:465-469 | the result is an argument no argument is greater than |
| Extremum.AnyConst | useful.hpp:429 | true iff some argument is const |
| Extremum.MinMaxRef | useful.hpp:425-439 | the result refers to the first best argument; it is const iff some argument is const |
| Extremum.MinRef | useful.hpp:462-463 | refers to the first least argument; const iff some argument is const |
| Extremum.MaxRef | useful.hpp:471-472 | refers to the first greatest argument; const iff some argument is const |
| Extremum.SelectedUnique | useful.hpp:433-436 | the strict fold selects exactly one position |
| Extremum.TieKeepsEarliest | useful.hpp:429-436 | on `5, 5` the first argument is selected for min and for max, one const argument makes the result const and none leaves it non-const (the general rule is the selected position in `MinMaxRef`'s contract) |
| Associative.PruneByValue | useful.hpp:588-598 | nothing added; kept entries unchanged and not matching; every non-matching entry kept |
| Associative.PruneEntries | useful/utils.hpp:181-187 | nothing added; kept entries unchanged and failing `stf_any`; every entry failing it kept |
| Associative.RemoveAssociativeValue | useful.hpp:583-603 | the container after erasing in place is the value-pruned original, and no remaining mapped value matches |
| Associative.RemoveAssociative | useful/utils.hpp:179-189 | the container after erasing in place is the entry-pruned original, and no remaining entry satisfies `stf_any` |
| Associative.RemoveAssociativeCopy | useful/utils.hpp:191-199 | the copy holds exactly the entries of `c` that fail `stf_any`; `c` is not modified |
| Associative.PruneIdempotent | useful/utils.hpp:179-189 | removing a second time with the same patterns removes nothing more (both removers) |
| Associative.ValueRemoverIsSecondObj | useful.hpp:588-594 | the useful.hpp remover is the utils.hpp remover with `stf_second_obj(rm)`, when `rm` is not a self-typed invocable |
| Associative.FirstObjErasesByKey | useful/utils.hpp:97-101 | erasing with `stf_first_obj(k0)` removes the entry with key `k0` and nothing else |
| Associative.SecondObjErasesByValue | useful/utils.hpp:103-107 | erasing with `stf_second_obj(v)` keeps exactly the keys whose mapped value is not `v` |
| Associative.RemoveByValueExample | useful.hpp:583-603 | `{1: "a", 2: "b", 3: "a"}` with remover `"a"` keeps `{2: "b"}` |
| BinarySearch.Upper | useful/utils.hpp:201-220 | an empty range gives `(false, end)`; otherwise the index is in range and `found` iff `f(index) == value`; on a non-decreasing `f`, `found` iff `value` occurs, and the index is then the greatest occurrence |
| BinarySearch.Lower | useful/utils.hpp:222-241 | as `Upper`, but on a non-decreasing `f` the index is the least occurrence |
| BinarySearch.UpperLowerBracket | useful/utils.hpp:201-241 | on a non-decreasing `f` the two agree on `found`, and the indices `lower..upper` are exactly the occurrences |
| BinarySearch.SearchExamples | useful/utils.hpp:201-241 | with `f(0) = f(1) = 1` and value 1, upper gives `(true, 1)` and lower gives `(true, 0)`; on a projection that is not non-decreasing, a present value can be missed |

## Left out

- The two `spinlock` classes (useful.hpp:605-615, useful/utils.hpp:360-387): atomics, memory ordering and sleeping have no meaning in a sequential value model.
- useful/time_meter.hpp: wall-clock and process-clock reading, OS calls and floating-point seconds.
- main.cpp: a demo whose output goes through stream operators that are not part of this model.
- Value-category and pointer plumbing: `fwd_elem`, `forward_element`, `get_base_ptr`, `get_unique`, `get_shared`, `reverse_wrapper` and `dereference_compare`. Values are copied in a value model, so forwarding and pointer identity have no counterpart.
- `is_string_type`, `function_info` and the integer literal suffixes. These are C++ type-system traits and narrowing casts outside the modelled core.
- `subtuple*`, `tuple_transform`, `tuple_for_each`, `tuple_clone_value` and `for_each_trg`. Their index machinery lives in meta.hpp, and meta.hpp is not part of this model.
- Positions.SortBySecond: `std::sort` is replaced by an insertion sort with the same contract: a sorted permutation. No stability is claimed, as `std::sort` gives none.
- Containers are all `seq`, so the container kind that `clean` / `instance_info` carry through `position_pairs` and `add_positions` is not tracked.
- Extremum.MinMax: arguments are `int`. The conversions of a mixed-type pack to `Result` are not modelled.
- Associative.RemoveAssociative: the source erases in the container's iteration order. The model visits keys in an unspecified order; for patterns without state the result does not depend on it. Multi-key containers such as `std::multimap` are not modelled.
- Patterns, projections and comparators are pure functions. Stateful callables, such as a `mutable` functor whose answer depends on earlier calls, are accepted by both `remove_associative`s and by `stf_any_obj`/`stf_all_obj`, but are not modelled. With them, the source's result depends on the container's iteration order: on `std::map{{1,10},{2,20},{3,30}}` the remover `[n = 0](const auto&) mutable { return n++ == 0; }` erases key 1, the first in key order.
- Patterns.StfNthObj: on a record without component `N` the object is simply undefined (its `requires` fails), where the source does not compile. The record is a `seq<E>`, so only records whose components all have one type are modelled; a `std::tuple<int, std::string>` cannot be expressed.
- TypeSeq.Rebind and TypeSeq.ApplyToClean: a template is identified only by its `Ctor`; its arity is not recorded. So an instantiation with the wrong number of arguments, such as `clean<std::pair<int, int>>::type<int, int, int>`, is accepted although it does not compile.
- `Tag` can write one C++ type in several ways (`Const(Const(x))`, `Ref(Ref(x))`, `Const(Ref(x))`, which C++ collapses). The model is meant for canonical tags: at most one const qualifier, inside at most one reference. On non-canonical tags `AllSameAs` and `IsSameAll` can call one C++ type two types.
- `position_pairs` and `add_positions` accept different containers, which the model does not distinguish. `position_pairs` goes through `meta::clean<remove_reference_t<Container>>` (useful.hpp:563), which has no specialisation for a const container, so it does not compile on a const lvalue. `add_positions` decays its argument (useful/utils.hpp:151) but calls `reserve` (useful/utils.hpp:141), so it does not compile for `std::list` or `std::deque`.
- TypeSeq.Decay: strips every outer const and reference. On well-formed C++ types this is `std::decay_t`. Array-to-pointer and function-to-pointer decay are not modelled.
- TypeSeq.FirstT and TypeSeq.LastT: plain element selections that need a non-empty pack. They carry no contract of their own; `PushBackArity` and `PushFrontArity` state what they give.
- BinarySearch.Upper: the index type is unbounded `int` and `f` returns `int`, so the overflow of `end - begin` on a signed index type (for example `begin = INT_MIN`, `end = INT_MAX`) is not modelled. `begin <= end` is required: on a reversed range the source may recurse without end, although some reversed ranges return (`binary_search_upper(1, 0, v, f)` with `v < f(1)` returns `(false, 1)`).
- BinarySearch.Lower: the same `int` index, the same unmodelled overflow, and the same `begin <= end` requirement as `BinarySearch.Upper`.

Where the code's behaviour differs from what the templates' names suggest, the model follows the code:

- `tuple_replace_index` with `Index` past the end of the tuple compiles and leaves the tuple unchanged. Only `Index == size` is rejected (an ambiguous specialisation), so `TypeSeq.ReplaceIndex` requires `index != |t|`.
- `tuple_concat<>` with no tuples does not instantiate, because the helper needs at least one tuple after `Result`. So `TypeSeq.Concat` requires at least one tuple.
- `split<N>` indexes the run vector unchecked. So `Split.SplitN` requires at least `N` runs.
