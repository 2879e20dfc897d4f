/**
 * The in-memory stand-in for one DynamoDB table: a map from primary key to
 * item, plus the order in which the keys were first written. Queries on a
 * secondary index and scans return items in that order.
 */
module Tables {
  import opened Wrappers

  datatype Table<K, V> = Table(items: map<K, V>, order: seq<K>)

  predicate Distinct<T(==)>(s: seq<T>) {
    forall i, j :: 0 <= i < j < |s| ==> s[i] != s[j]
  }

  /** Every key appears exactly once in the order, and the order lists only stored keys. */
  ghost predicate Valid<K(!new), V(!new)>(t: Table<K, V>) {
    Distinct(t.order) && (forall k :: k in t.order <==> k in t.items)
  }

  /** Each item is stored under the primary key it carries (`put_item` takes the key from the item). */
  ghost predicate KeyedBy<K(!new), V(!new)>(t: Table<K, V>, key: V -> K) {
    forall k :: k in t.items ==> key(t.items[k]) == k
  }

  function Empty<K(==, !new), V(!new)>(): (t: Table<K, V>)
    ensures Valid(t) && t.items == map[] && t.order == []
  {
    Table(map[], [])
  }

  /** `get_item`: the item stored under `k`, or `None`. */
  function Get<K(==, !new), V(!new)>(t: Table<K, V>, k: K): (r: Option<V>)
    ensures r.None? <==> k !in t.items
  {
    if k in t.items then Some(t.items[k]) else None
  }

  /**
   * `put_item`: store `v` under `k`, replacing any item already there. A new
   * key goes to the end of the order; a replaced one keeps its place.
   */
  function Put<K(==, !new), V(!new)>(t: Table<K, V>, k: K, v: V): (r: Table<K, V>)
    requires Valid(t)
    ensures Valid(r)
    ensures Get(r, k) == Some(v)
    ensures forall k' :: k' != k ==> Get(r, k') == Get(t, k')
    ensures k in t.items ==> r.order == t.order
    ensures k !in t.items ==> r.order == t.order + [k]
  {
    Table(t.items[k := v], if k in t.items then t.order else t.order + [k])
  }

  /** The order with `k` taken out. */
  function Without<K(==, !new)>(s: seq<K>, k: K): (r: seq<K>)
    ensures forall x :: x in r <==> x in s && x != k
    ensures Distinct(s) ==> Distinct(r)
  {
    if s == [] then []
    else
      var rest := Without(s[1..], k);
      assert Distinct(s) ==> Distinct(s[1..]) && s[0] !in s[1..];
      if s[0] == k then rest else [s[0]] + rest
  }

  /** `delete_item`: remove whatever is stored under `k` (nothing, if it is absent). */
  function Delete<K(==, !new), V(!new)>(t: Table<K, V>, k: K): (r: Table<K, V>)
    requires Valid(t)
    ensures Valid(r)
    ensures Get(r, k) == None
    ensures forall k' :: k' != k ==> Get(r, k') == Get(t, k')
  {
    Table(t.items - {k}, Without(t.order, k))
  }

  /** The items under `keys`, in that order, that satisfy `p`; a key without an item is skipped. */
  function SelectFrom<K(==, !new), V(!new)>(keys: seq<K>, items: map<K, V>, p: V -> bool): (r: seq<V>)
    ensures |r| <= |keys|
  {
    if keys == [] then []
    else
      var rest := SelectFrom(keys[1..], items, p);
      if keys[0] in items && p(items[keys[0]]) then [items[keys[0]]] + rest else rest
  }

  /** An item is selected exactly when it sits under one of the keys and satisfies `p`. */
  lemma {:induction false} SelectFromMember<K(!new), V(!new)>(keys: seq<K>, items: map<K, V>, p: V -> bool, v: V)
    requires forall k :: k in keys ==> k in items
    ensures v in SelectFrom(keys, items, p) <==> exists i :: 0 <= i < |keys| && items[keys[i]] == v && p(v)
    decreases |keys|
  {
    if keys != [] {
      var tail := keys[1..];
      SelectFromMember(tail, items, p, v);
      if exists i :: 0 <= i < |keys| && items[keys[i]] == v && p(v) {
        var i :| 0 <= i < |keys| && items[keys[i]] == v && p(v);
        if i > 0 {
          assert tail[i - 1] == keys[i];
        }
      }
      if exists i :: 0 <= i < |tail| && items[tail[i]] == v && p(v) {
        var i :| 0 <= i < |tail| && items[tail[i]] == v && p(v);
        assert keys[i + 1] == tail[i];
      }
    }
  }

  /** Every item the selection returns is stored and satisfies `p`, and every such item is returned. */
  lemma SelectFromMembers<K(!new), V(!new)>(keys: seq<K>, items: map<K, V>, p: V -> bool)
    requires forall k :: k in keys ==> k in items
    ensures forall v :: v in SelectFrom(keys, items, p) <==> exists i :: 0 <= i < |keys| && items[keys[i]] == v && p(v)
  {
    forall v {
      SelectFromMember(keys, items, p, v);
    }
  }

  /** The first item selected is the item under the first key whose item satisfies `p`. */
  lemma {:induction false} SelectFromFirst<K(!new), V(!new)>(keys: seq<K>, items: map<K, V>, p: V -> bool)
    requires forall k :: k in keys ==> k in items
    ensures var r := SelectFrom(keys, items, p);
      r != [] ==>
        exists i :: 0 <= i < |keys| && items[keys[i]] == r[0] && p(r[0])
                    && forall j :: 0 <= j < i ==> !p(items[keys[j]])
    decreases |keys|
  {
    if keys != [] && !p(items[keys[0]]) {
      var tail := keys[1..];
      var rest := SelectFrom(tail, items, p);
      SelectFromFirst(tail, items, p);
      if rest != [] {
        var i :| 0 <= i < |tail| && items[tail[i]] == rest[0] && p(rest[0])
                 && forall j :: 0 <= j < i ==> !p(items[tail[j]]);
        assert keys[i + 1] == tail[i];
        forall j | 0 <= j < i + 1
          ensures !p(items[keys[j]])
        {
          if j > 0 {
            assert keys[j] == tail[j - 1];
          }
        }
      }
    }
  }

  /**
   * A query on a secondary index, or a filtered scan: the stored items that
   * satisfy `p`, in table order (`SelectMembers`, `SelectFirst`).
   */
  function Select<K(==, !new), V(==, !new)>(t: Table<K, V>, p: V -> bool): (r: seq<V>)
    ensures |r| <= |t.order|
  {
    SelectFrom(t.order, t.items, p)
  }

  /** A query returns exactly the stored items that satisfy `p`. */
  lemma SelectMembers<K(!new), V(!new)>(t: Table<K, V>, p: V -> bool)
    requires Valid(t)
    ensures forall v :: v in Select(t, p) <==> v in t.items.Values && p(v)
  {
    SelectFromMembers(t.order, t.items, p);
    assert forall v :: v in t.items.Values ==> exists k :: k in t.order && t.items[k] == v;
  }

  /** The first item a query returns is the first matching item of the order. */
  lemma SelectFirst<K(!new), V(!new)>(t: Table<K, V>, p: V -> bool)
    requires Valid(t)
    ensures var r := Select(t, p);
      r != [] ==>
        exists i :: 0 <= i < |t.order| && t.items[t.order[i]] == r[0] && p(r[0])
                    && forall j :: 0 <= j < i ==> !p(t.items[t.order[j]])
  {
    SelectFromFirst(t.order, t.items, p);
  }

  /** `scan`: every stored item, in table order. */
  function Scan<K(==, !new), V(==, !new)>(t: Table<K, V>): (r: seq<V>)
    requires Valid(t)
    ensures forall v :: v in r <==> v in t.items.Values
  {
    SelectMembers(t, (v: V) => true);
    Select(t, (v: V) => true)
  }

  lemma DistinctConcat<T>(a: seq<T>, b: seq<T>)
    requires Distinct(a) && Distinct(b)
    requires forall x :: x in a ==> x !in b
    ensures Distinct(a + b)
  {
    forall i, j | 0 <= i < j < |a + b|
      ensures (a + b)[i] != (a + b)[j]
    {
      if j >= |a| && i < |a| {
        assert (a + b)[i] in a && (a + b)[j] in b;
      }
    }
  }

  /** A valid table's order is as long as it has keys. */
  lemma DistinctCard<K(!new), V(!new)>(t: Table<K, V>)
    requires Valid(t)
    ensures |t.order| == |t.items|
  {
    SeqSetCard(t.order);
    assert t.items.Keys == set k | k in t.order;
  }

  lemma {:induction false} SeqSetCard<K>(s: seq<K>)
    requires Distinct(s)
    ensures |set k | k in s| == |s|
  {
    if s != [] {
      SeqSetCard(s[1..]);
      assert (set k | k in s) == {s[0]} + (set k | k in s[1..]);
    }
  }

  lemma {:induction false} SelectFromDistinct<K(!new), V(!new)>(keys: seq<K>, items: map<K, V>, p: V -> bool, key: V -> K)
    requires forall k :: k in keys ==> k in items
    requires Distinct(keys)
    requires forall k :: k in keys ==> key(items[k]) == k
    ensures Distinct(SelectFrom(keys, items, p))
  {
    if keys != [] {
      SelectFromDistinct(keys[1..], items, p, key);
      SelectFromMember(keys[1..], items, p, items[keys[0]]);
      forall i | 0 <= i < |keys[1..]|
        ensures items[keys[1..][i]] != items[keys[0]]
      {
        assert keys[1..][i] == keys[i + 1];
      }
    }
  }

  /** A query over a table keyed by its items returns no item twice. */
  lemma SelectDistinct<K(!new), V(!new)>(t: Table<K, V>, p: V -> bool, key: V -> K)
    requires Valid(t) && KeyedBy(t, key)
    ensures Distinct(Select(t, p))
  {
    SelectFromDistinct(t.order, t.items, p, key);
  }

  /**
   * `[get_item(key(x)) for x in xs]` with the missing items filtered out
   * (`[s for s in ... if s]`), in the order of `xs`.
   */
  function Joined<E, K(!new), V(!new)>(xs: seq<E>, key: E -> K, t: Table<K, V>): (r: seq<V>)
    ensures |r| <= |xs|
    ensures forall v :: v in r <==>
      exists i :: 0 <= i < |xs| && key(xs[i]) in t.items && t.items[key(xs[i])] == v
  {
    if xs == [] then []
    else
      var rest := Joined(xs[1..], key, t);
      assert forall v :: v in rest <==>
        exists i :: 1 <= i < |xs| && key(xs[i]) in t.items && t.items[key(xs[i])] == v;
      match Get(t, key(xs[0]))
      case Some(v) => [v] + rest
      case None => rest
  }
}
