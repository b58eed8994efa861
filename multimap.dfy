/**
 Tables that map a key to the list of values filed under it, built only by
 appending: the `HashMap<String, Vec<PathBuf>>` tables of rdup, filled through
 `entry(k).and_modify(|vs| vs.push(v)).or_insert(vec![v])`.

 `Grouped` is the table obtained by filing a sequence of (key, value) pairs one
 after the other; `Select` is an independent reference definition of one of its
 buckets (the values of the pairs with that key, in order); `Members` is the
 multiset of every value in every bucket.
 */
module Multimap {

  type Table<K, V> = map<K, seq<V>>

  /** Every bucket holds at least one value. */
  ghost predicate NonEmptyBuckets<K, V>(t: Table<K, V>)
  {
    forall k :: k in t ==> |t[k]| > 0
  }

  /** File `v` under `k`: append it to the bucket of `k` when there is one,
      otherwise create the bucket `[v]`. */
  function Insert<K, V>(t: Table<K, V>, k: K, v: V): (r: Table<K, V>)
    ensures r.Keys == t.Keys + {k}
    ensures |r[k]| > 0 && r[k][|r[k]| - 1] == v
    ensures r[k][..|r[k]| - 1] == if k in t then t[k] else []
    ensures forall k' :: k' in t && k' != k ==> r[k'] == t[k']
  {
    if k in t then t[k := t[k] + [v]] else t[k := [v]]
  }

  /** The table obtained by filing every pair of `pairs`, first to last, into an empty table. */
  function Grouped<K, V>(pairs: seq<(K, V)>): Table<K, V>
  {
    if pairs == [] then map[]
    else
      var last := pairs[|pairs| - 1];
      Insert(Grouped(pairs[..|pairs| - 1]), last.0, last.1)
  }

  /** The values of the pairs whose key is `k`, in the order of `pairs`. */
  function Select<K(==), V>(pairs: seq<(K, V)>, k: K): seq<V>
  {
    if pairs == [] then []
    else
      var last := pairs[|pairs| - 1];
      Select(pairs[..|pairs| - 1], k) + if last.0 == k then [last.1] else []
  }

  /** The values of `pairs`, in order. */
  function Values<K, V>(pairs: seq<(K, V)>): (vs: seq<V>)
    ensures |vs| == |pairs|
  {
    if pairs == [] then [] else Values(pairs[..|pairs| - 1]) + [pairs[|pairs| - 1].1]
  }

  /** Each value paired with its own key `key(v)`. */
  function Keyed<K, V>(vs: seq<V>, key: V -> K): seq<(K, V)>
  {
    seq(|vs|, i requires 0 <= i < |vs| => (key(vs[i]), vs[i]))
  }

  /** The values of `vs` whose key is `k`, in order. */
  function WithKey<K(==), V>(vs: seq<V>, key: V -> K, k: K): seq<V>
  {
    if vs == [] then []
    else WithKey(vs[..|vs| - 1], key, k) + if key(vs[|vs| - 1]) == k then [vs[|vs| - 1]] else []
  }

  /** The multiset of every value in every bucket of `t`. */
  ghost function Members<K, V>(t: Table<K, V>): multiset<V>
    decreases t.Keys
  {
    if t == map[] then multiset{}
    else
      var k :| k in t;
      multiset(t[k]) + Members(t - {k})
  }

  /** `order` lists every key of `t` exactly once. */
  ghost predicate Enumerates<K, V>(order: seq<K>, t: Table<K, V>)
  {
    && (forall i, j :: 0 <= i < j < |order| ==> order[i] != order[j])
    && (forall i :: 0 <= i < |order| ==> order[i] in t)
    && (forall k :: k in t ==> k in order)
  }

  /** A drain of `t` in progress: `rest` is the part of `t` not yet visited, and
      `order` lists every visited key once. */
  ghost predicate Drained<K, V>(t: Table<K, V>, rest: Table<K, V>, order: seq<K>)
  {
    && (forall k :: k in rest ==> k in t && rest[k] == t[k])
    && (forall i :: 0 <= i < |order| ==> order[i] in t && order[i] !in rest)
    && (forall i, j :: 0 <= i < j < |order| ==> order[i] != order[j])
    && (forall k :: k in t ==> k in rest || k in order)
  }

  /** The buckets of the keys in `order`, concatenated in that order. */
  function Flatten<K, V>(t: Table<K, V>, order: seq<K>): seq<V>
    requires forall k :: k in order ==> k in t
  {
    if order == [] then []
    else Flatten(t, order[..|order| - 1]) + t[order[|order| - 1]]
  }

  // ---------------------------------------------------------------------------
  // Filing pairs one at a time

  lemma GroupedSnoc<K, V>(pairs: seq<(K, V)>, k: K, v: V)
    ensures Grouped(pairs + [(k, v)]) == Insert(Grouped(pairs), k, v)
  {
    assert (pairs + [(k, v)])[..|pairs|] == pairs;
  }

  lemma SelectSnoc<K, V>(pairs: seq<(K, V)>, p: (K, V), k: K)
    ensures Select(pairs + [p], k) == Select(pairs, k) + if p.0 == k then [p.1] else []
  {
    assert (pairs + [p])[..|pairs|] == pairs;
  }

  lemma KeyedSnoc<K, V>(vs: seq<V>, v: V, key: V -> K)
    ensures Keyed(vs + [v], key) == Keyed(vs, key) + [(key(v), v)]
  {
  }

  /** A bucket of the grouped table is exactly the reference bucket `Select`, and a
      key has a bucket exactly when some pair carries it. */
  lemma {:induction false} GroupedIsSelect<K, V>(pairs: seq<(K, V)>, k: K)
    ensures k in Grouped(pairs) <==> Select(pairs, k) != []
    ensures k in Grouped(pairs) ==> Grouped(pairs)[k] == Select(pairs, k)
  {
    if pairs != [] {
      GroupedIsSelect(pairs[..|pairs| - 1], k);
    }
  }

  /** Buckets are created holding one value and only ever grow, so none is empty. */
  lemma {:induction false} GroupedNonEmpty<K, V>(pairs: seq<(K, V)>)
    ensures NonEmptyBuckets(Grouped(pairs))
  {
    if pairs != [] {
      GroupedNonEmpty(pairs[..|pairs| - 1]);
    }
  }

  /** `v` is in the reference bucket of `k` exactly when the pair `(k, v)` was filed. */
  lemma {:induction false} SelectMembership<K, V>(pairs: seq<(K, V)>, k: K, v: V)
    ensures v in Select(pairs, k) <==> (k, v) in pairs
  {
    if pairs != [] {
      var init := pairs[..|pairs| - 1];
      SelectMembership(init, k, v);
      assert pairs == init + [pairs[|pairs| - 1]];
    }
  }

  /** Filing is order preserving: the bucket built from `a + b` is the bucket built
      from `a` followed by the values of `b` with the same key. */
  lemma {:induction false} SelectAppend<K, V>(a: seq<(K, V)>, b: seq<(K, V)>, k: K)
    ensures Select(a + b, k) == Select(a, k) + Select(b, k)
  {
    if b != [] {
      var init, last := b[..|b| - 1], b[|b| - 1];
      var tail := if last.0 == k then [last.1] else [];
      calc {
        Select(a + b, k);
      == { assert a + b == (a + init) + [last]; SelectSnoc(a + init, last, k); }
        Select(a + init, k) + tail;
      == { SelectAppend(a, init, k); }
        Select(a, k) + Select(init, k) + tail;
      == { assert b == init + [last]; SelectSnoc(init, last, k); }
        Select(a, k) + Select(b, k);
      }
    } else {
      assert a + b == a;
    }
  }

  // ---------------------------------------------------------------------------
  // Conservation of values

  /** `Members` may take the bucket of any key first. */
  lemma {:induction false} MembersRemove<K, V>(t: Table<K, V>, k: K)
    requires k in t
    ensures Members(t) == multiset(t[k]) + Members(t - {k})
    decreases t.Keys
  {
    var k' :| k' in t && Members(t) == multiset(t[k']) + Members(t - {k'});
    if k' != k {
      var t' := t - {k'};
      MembersRemove(t', k);
      MembersRemove(t - {k}, k');
      assert t' - {k} == (t - {k}) - {k'};
    }
  }

  lemma MembersNewBucket<K, V>(t: Table<K, V>, k: K, v: V)
    requires k !in t
    ensures Members(t[k := [v]]) == Members(t) + multiset{v}
  {
    MembersRemove(t[k := [v]], k);
    assert t[k := [v]] - {k} == t;
  }

  lemma MembersPush<K, V>(t: Table<K, V>, k: K, v: V)
    requires k in t
    ensures Members(t[k := t[k] + [v]]) == Members(t) + multiset{v}
  {
    var r := t[k := t[k] + [v]];
    MembersRemove(r, k);
    MembersRemove(t, k);
    assert r - {k} == t - {k};
  }

  /** Filing one value adds exactly that value to the members. */
  lemma MembersInsert<K, V>(t: Table<K, V>, k: K, v: V)
    ensures Members(Insert(t, k, v)) == Members(t) + multiset{v}
  {
    if k in t {
      MembersPush(t, k, v);
    } else {
      MembersNewBucket(t, k, v);
    }
  }

  /** Grouping loses and invents no value: the members are the filed values. */
  lemma {:induction false} GroupedMembers<K, V>(pairs: seq<(K, V)>)
    ensures Members(Grouped(pairs)) == multiset(Values(pairs))
  {
    if pairs == [] {
      assert Values(pairs) == [];
    } else {
      var init := pairs[..|pairs| - 1];
      var last := pairs[|pairs| - 1];
      var g := Grouped(init);
      assert Grouped(pairs) == Insert(g, last.0, last.1);
      GroupedMembers(init);
      MembersInsert(g, last.0, last.1);
      assert Values(pairs) == Values(init) + [last.1];
    }
  }

  lemma FlattenSnoc<K, V>(t: Table<K, V>, order: seq<K>, k: K)
    requires forall k' :: k' in order ==> k' in t
    requires k in t
    ensures Flatten(t, order + [k]) == Flatten(t, order) + t[k]
  {
    assert (order + [k])[..|order|] == order;
  }

  /** Visiting one more key keeps a drain in progress. */
  lemma DrainStep<K, V>(t: Table<K, V>, rest: Table<K, V>, order: seq<K>, k: K)
    requires Drained(t, rest, order) && k in rest
    ensures Drained(t, rest - {k}, order + [k])
    ensures forall k' :: k' in order + [k] ==> k' in t
  {
    forall k' | k' in order + [k] ensures k' in t {
      var i :| 0 <= i < |order + [k]| && (order + [k])[i] == k';
    }
  }

  /** A drain with nothing left has listed every key of the table once. */
  lemma DrainDone<K, V>(t: Table<K, V>, order: seq<K>)
    requires Drained(t, map[], order)
    ensures Enumerates(order, t)
  {
  }

  /** Every value of a bucket whose key is listed is in the flattened buckets. */
  lemma {:induction false} FlattenContains<K, V>(t: Table<K, V>, order: seq<K>, k: K, v: V)
    requires forall k' :: k' in order ==> k' in t
    requires k in order && v in t[k]
    ensures v in Flatten(t, order)
  {
    var last := order[|order| - 1];
    if k != last {
      FlattenContains(t, order[..|order| - 1], k, v);
    }
  }

  lemma {:induction false} FlattenFrame<K, V>(t: Table<K, V>, t': Table<K, V>, order: seq<K>)
    requires forall k :: k in order ==> k in t && k in t' && t[k] == t'[k]
    ensures Flatten(t, order) == Flatten(t', order)
  {
    if order != [] {
      FlattenFrame(t, t', order[..|order| - 1]);
    }
  }

  /** Draining the buckets in any order that lists every key once yields every member once. */
  lemma {:induction false} MembersFlatten<K, V>(t: Table<K, V>, order: seq<K>)
    requires Enumerates(order, t)
    ensures Members(t) == multiset(Flatten(t, order))
  {
    if order == [] {
      assert t == map[];
    } else {
      var init := order[..|order| - 1];
      var k := order[|order| - 1];
      var t' := t - {k};
      assert forall k' :: k' in init ==> k' != k by {
        forall k' | k' in init ensures k' != k {
          var i :| 0 <= i < |init| && init[i] == k';
        }
      }
      assert forall k' :: k' in init <==> k' in t' by {
        forall k' ensures k' in init <==> k' in t' {
          if k' in t' {
            assert k' in order;
            var i :| 0 <= i < |order| && order[i] == k';
            assert i != |order| - 1;
            assert init[i] == k';
          }
        }
      }
      MembersFlatten(t', init);
      FlattenFrame(t, t', init);
      MembersRemove(t, k);
    }
  }

  // ---------------------------------------------------------------------------
  // Grouping values by a key function

  lemma {:induction false} SelectKeyed<K, V>(vs: seq<V>, key: V -> K, k: K)
    ensures Select(Keyed(vs, key), k) == WithKey(vs, key, k)
  {
    if vs != [] {
      var init := vs[..|vs| - 1];
      SelectKeyed(init, key, k);
      assert Keyed(vs, key)[..|vs| - 1] == Keyed(init, key);
    }
  }

  /** Dropping the keys of keyed values gives the values back. */
  lemma {:induction false} ValuesKeyed<K, V>(vs: seq<V>, key: V -> K)
    ensures Values(Keyed(vs, key)) == vs
  {
    if vs != [] {
      var init := vs[..|vs| - 1];
      ValuesKeyed(init, key);
      assert Keyed(vs, key)[..|vs| - 1] == Keyed(init, key);
    }
  }

  lemma {:induction false} KeyedMembership<K, V>(vs: seq<V>, key: V -> K, k: K, v: V)
    ensures (k, v) in Keyed(vs, key) <==> v in vs && key(v) == k
  {
    if v in vs && key(v) == k {
      var i :| 0 <= i < |vs| && vs[i] == v;
      assert Keyed(vs, key)[i] == (k, v);
    }
  }

  /** Grouping values by their key: every value sits in the bucket of its own key, and
      every bucket holds exactly the values with that key, in order. */
  lemma GroupedByKey<K, V>(vs: seq<V>, key: V -> K)
    ensures forall v :: v in vs ==> key(v) in Grouped(Keyed(vs, key)) && v in Grouped(Keyed(vs, key))[key(v)]
    ensures forall k :: k in Grouped(Keyed(vs, key)) ==> Grouped(Keyed(vs, key))[k] == WithKey(vs, key, k)
    ensures forall k, v :: k in Grouped(Keyed(vs, key)) && v in Grouped(Keyed(vs, key))[k] ==> key(v) == k
  {
    var g := Grouped(Keyed(vs, key));
    forall k | k in g ensures g[k] == WithKey(vs, key, k) {
      GroupedIsSelect(Keyed(vs, key), k);
      SelectKeyed(vs, key, k);
    }
    forall v | v in vs ensures key(v) in g && v in g[key(v)] {
      KeyedMembership(vs, key, key(v), v);
      SelectMembership(Keyed(vs, key), key(v), v);
      GroupedIsSelect(Keyed(vs, key), key(v));
    }
    forall k, v | k in g && v in g[k] ensures key(v) == k {
      GroupedIsSelect(Keyed(vs, key), k);
      SelectMembership(Keyed(vs, key), k, v);
      KeyedMembership(vs, key, k, v);
    }
  }

  /** How often `v` occurs among the values with key `k`. */
  lemma {:induction false} WithKeyCount<K, V>(vs: seq<V>, key: V -> K, k: K, v: V)
    ensures multiset(WithKey(vs, key, k))[v] == if key(v) == k then multiset(vs)[v] else 0
  {
    if vs != [] {
      var init := vs[..|vs| - 1];
      WithKeyCount(init, key, k, v);
      assert vs == init + [vs[|vs| - 1]];
    }
  }

  /** Selecting by key depends only on the multiset of values, not on their order. */
  lemma WithKeyPermutation<K, V(!new)>(a: seq<V>, b: seq<V>, key: V -> K, k: K)
    requires multiset(a) == multiset(b)
    ensures multiset(WithKey(a, key, k)) == multiset(WithKey(b, key, k))
  {
    forall v ensures multiset(WithKey(a, key, k))[v] == multiset(WithKey(b, key, k))[v] {
      WithKeyCount(a, key, k, v);
      WithKeyCount(b, key, k, v);
      assert multiset(a)[v] == multiset(b)[v];
    }
  }
}
