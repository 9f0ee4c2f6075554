/** Erasing entries of an associative container: the single-remover
    `remove_associative` of useful.hpp, which tests the mapped value, and
    `remove_associative` / `remove_associative_copy` of useful/utils.hpp, which
    test the whole `(key, mapped)` entry against any of several patterns.

    The container is a `map` held by an `AssocMap` object, so that erasing in
    place is an update of that object. The source walks the container in its
    iteration order. A pattern here is a pure function, so the outcome does
    not depend on that order, and the loops below visit the keys in an
    unspecified one; stateful callables are not modelled. */
module Associative {
  import opened Patterns

  /** An associative container with unique keys (`std::map`,
      `std::unordered_map`). */
  class AssocMap<K(==), V(==)> {
    var entries: map<K, V>

    constructor (m: map<K, V>)
      ensures entries == m
    {
      entries := m;
    }
  }

  /** The entries of `m` whose mapped value the guarded rule does not match. */
  function PruneByValue<K(==), V(==)>(m: map<K, V>, rm: Pattern<V>): (r: map<K, V>)
    ensures r.Keys <= m.Keys
    ensures forall k :: k in r ==> r[k] == m[k] && !MatchGuarded(m[k], rm)
    ensures forall k :: k in m && !MatchGuarded(m[k], rm) ==> k in r
  {
    map k | k in m && !MatchGuarded(m[k], rm) :: m[k]
  }

  /** The entries of `m` that no pattern of `rs` matches under `stf`. */
  function PruneEntries<K(==), V(==)>(m: map<K, V>, rs: seq<Pattern<(K, V)>>): (r: map<K, V>)
    ensures r.Keys <= m.Keys
    ensures forall k :: k in r ==> r[k] == m[k] && !StfAny((k, m[k]), rs)
    ensures forall k :: k in m && !StfAny((k, m[k]), rs) ==> k in r
  {
    map k | k in m && !StfAny((k, m[k]), rs) :: m[k]
  }

  /** `remove_associative(container, rm)` of useful.hpp: erases, in place,
      exactly the entries whose mapped value matches `rm`. */
  method RemoveAssociativeValue<K(==), V(==)>(c: AssocMap<K, V>, rm: Pattern<V>)
    modifies c
    ensures c.entries == PruneByValue(old(c.entries), rm)
    ensures forall k :: k in c.entries ==> !MatchGuarded(c.entries[k], rm)
  {
    ghost var orig := c.entries;
    var todo := c.entries.Keys;
    while todo != {}
      invariant todo <= orig.Keys
      invariant c.entries == map k | k in orig && (k in todo || !MatchGuarded(orig[k], rm)) :: orig[k]
      decreases |todo|
    {
      var k :| k in todo;
      if MatchGuarded(c.entries[k], rm) {
        c.entries := c.entries - {k};
      }
      todo := todo - {k};
    }
  }

  /** `remove_associative(c, rs...)` of useful/utils.hpp: erases, in place,
      exactly the entries that satisfy `stf_any(entry, rs...)`. */
  method RemoveAssociative<K(==), V(==)>(c: AssocMap<K, V>, rs: seq<Pattern<(K, V)>>)
    modifies c
    ensures c.entries == PruneEntries(old(c.entries), rs)
    ensures forall k :: k in c.entries ==> !StfAny((k, c.entries[k]), rs)
  {
    ghost var orig := c.entries;
    var todo := c.entries.Keys;
    while todo != {}
      invariant todo <= orig.Keys
      invariant c.entries == map k | k in orig && (k in todo || !StfAny((k, orig[k]), rs)) :: orig[k]
      decreases |todo|
    {
      var k :| k in todo;
      if StfAny((k, c.entries[k]), rs) {
        c.entries := c.entries - {k};
      }
      todo := todo - {k};
    }
  }

  /** `remove_associative_copy(c, rs...)`: a new container holding, via
      `insert`, exactly the entries of `c` that fail `stf_any`; `c` is
      unchanged (the method may not modify it). */
  method RemoveAssociativeCopy<K(==), V(==)>(c: AssocMap<K, V>, rs: seq<Pattern<(K, V)>>) returns (result: map<K, V>)
    ensures result == PruneEntries(c.entries, rs)
  {
    result := map[];
    var todo := c.entries.Keys;
    while todo != {}
      invariant todo <= c.entries.Keys
      invariant result == map k | k in c.entries && k !in todo && !StfAny((k, c.entries[k]), rs) :: c.entries[k]
      decreases |todo|
    {
      var k :| k in todo;
      if !StfAny((k, c.entries[k]), rs) {
        result := result[k := c.entries[k]];
      }
      todo := todo - {k};
    }
  }

  /** Erasing twice with the same remover erases nothing more. */
  lemma PruneIdempotent<K, V>(m: map<K, V>, rs: seq<Pattern<(K, V)>>, rm: Pattern<V>)
    ensures PruneEntries(PruneEntries(m, rs), rs) == PruneEntries(m, rs)
    ensures PruneByValue(PruneByValue(m, rm), rm) == PruneByValue(m, rm)
  {
  }

  /** The two removers agree: erasing by mapped value under the guarded rule is
      erasing whole entries under `stf_second_obj(rm)`, as long as `rm` is not
      an invocable object of the mapped type. */
  lemma ValueRemoverIsSecondObj<K(!new), V(!new)>(m: map<K, V>, rm: Pattern<V>)
    requires !rm.SelfCallable?
    ensures PruneEntries(m, [Pred(StfSecondObj<K, V>(rm))]) == PruneByValue(m, rm)
  {
    forall k | k in m
      ensures StfAny((k, m[k]), [Pred(StfSecondObj<K, V>(rm))]) == MatchGuarded(m[k], rm)
    {
      RulesAgreeOffSelfCallable(m[k], rm);
    }
  }

  /** Erasing with `stf_first_obj(k0)` erases the entry with key `k0`, and
      nothing else. */
  lemma FirstObjErasesByKey<K(!new), V(!new)>(m: map<K, V>, k0: K)
    ensures PruneEntries(m, [Pred(StfFirstObj<K, V>(Value(k0)))]) == m - {k0}
  {
    var ps := [Pred(StfFirstObj<K, V>(Value(k0)))];
    forall k | k in m
      ensures StfAny((k, m[k]), ps) <==> k == k0
    {
      assert StfAny((k, m[k]), ps) == Stf((k, m[k]), ps[0]);
    }
  }

  /** Erasing with `stf_second_obj(v)` erases exactly the entries whose mapped
      value is `v`. */
  lemma SecondObjErasesByValue<K(!new), V(!new)>(m: map<K, V>, v: V)
    ensures forall k :: k in PruneEntries(m, [Pred(StfSecondObj<K, V>(Value(v)))]) <==> k in m && m[k] != v
  {
    var ps := [Pred(StfSecondObj<K, V>(Value(v)))];
    forall k | k in m
      ensures StfAny((k, m[k]), ps) <==> m[k] == v
    {
      assert StfAny((k, m[k]), ps) == Stf((k, m[k]), ps[0]);
    }
  }

  /** `{1: "a", 2: "b", 3: "a"}` with the remover `"a"` keeps `{2: "b"}`. */
  lemma RemoveByValueExample()
    ensures PruneByValue(map[1 := "a", 2 := "b", 3 := "a"], Value("a")) == map[2 := "b"]
  {
    var r := PruneByValue(map[1 := "a", 2 := "b", 3 := "a"], Value("a"));
    assert 2 in r;
    assert r.Keys == {2};
  }
}
