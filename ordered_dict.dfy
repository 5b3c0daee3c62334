/** A Python `dict`: a key-value mapping that also remembers the order in
    which its keys were first inserted (`d[k] = v` on a present key keeps its
    place, `del d[k]` removes it). */
module OrderedDict {

  datatype Dict<K(==,!new), V> = Dict(keys: seq<K>, items: map<K, V>)
  {
    ghost predicate Valid()
    {
      && (forall i, j :: 0 <= i < j < |keys| ==> keys[i] != keys[j])
      && (forall k :: k in items <==> k in keys)
    }
  }

  function Empty<K(==,!new), V>(): (d: Dict<K, V>)
    ensures d.Valid() && d.keys == [] && d.items == map[]
  {
    Dict([], map[])
  }

  /** `d[k] = v` */
  function Put<K(==,!new), V>(d: Dict<K, V>, k: K, v: V): (r: Dict<K, V>)
    requires d.Valid()
    ensures r.Valid()
    ensures r.items == d.items[k := v]
    ensures r.keys == if k in d.items then d.keys else d.keys + [k]
  {
    if k in d.items then Dict(d.keys, d.items[k := v]) else Dict(d.keys + [k], d.items[k := v])
  }

  /** The key order with `k` taken out. */
  function RemoveKey<K(==,!new)>(keys: seq<K>, k: K): (r: seq<K>)
    ensures forall x :: x in r <==> x in keys && x != k
    ensures (forall i, j :: 0 <= i < j < |keys| ==> keys[i] != keys[j])
            ==> (forall i, j :: 0 <= i < j < |r| ==> r[i] != r[j])
  {
    if keys == [] then []
    else if keys[0] == k then RemoveKey(keys[1..], k)
    else
      var rest := RemoveKey(keys[1..], k);
      assert (forall i, j :: 0 <= i < j < |keys| ==> keys[i] != keys[j]) ==> keys[0] !in rest by {
        if forall i, j :: 0 <= i < j < |keys| ==> keys[i] != keys[j] {
          assert forall j :: 1 <= j < |keys| ==> keys[0] != keys[j];
        }
      }
      [keys[0]] + rest
  }

  /** `del d[k]` (the caller guarantees that `k` is present). */
  function Remove<K(==,!new), V>(d: Dict<K, V>, k: K): (r: Dict<K, V>)
    requires d.Valid()
    ensures r.Valid()
    ensures r.items == d.items - {k}
    ensures r.keys == RemoveKey(d.keys, k)
  {
    Dict(RemoveKey(d.keys, k), d.items - {k})
  }

  /** `d.get(k, default)` */
  function Get<K(==,!new), V>(d: Dict<K, V>, k: K, default: V): (v: V)
    ensures k in d.items ==> v == d.items[k]
    ensures k !in d.items ==> v == default
  {
    if k in d.items then d.items[k] else default
  }

  /** `list(d.values())` */
  function Values<K(==,!new), V>(d: Dict<K, V>): (vs: seq<V>)
    requires d.Valid()
    ensures |vs| == |d.keys|
    ensures forall i :: 0 <= i < |d.keys| ==> vs[i] == d.items[d.keys[i]]
  {
    seq(|d.keys|, i requires 0 <= i < |d.keys| => d.items[d.keys[i]])
  }

  /** `list(d.items())` */
  function Items<K(==,!new), V>(d: Dict<K, V>): (kvs: seq<(K, V)>)
    requires d.Valid()
    ensures |kvs| == |d.keys|
    ensures forall i :: 0 <= i < |d.keys| ==> kvs[i] == (d.keys[i], d.items[d.keys[i]])
  {
    seq(|d.keys|, i requires 0 <= i < |d.keys| => (d.keys[i], d.items[d.keys[i]]))
  }

  /** A list without repeats has as many elements as its set. */
  lemma {:induction false} DistinctCardinality<K>(s: seq<K>)
    requires forall i, j :: 0 <= i < j < |s| ==> s[i] != s[j]
    ensures |set x | x in s| == |s|
  {
    if s != [] {
      var init := s[..|s| - 1];
      DistinctCardinality(init);
      assert (set x | x in s) == (set x | x in init) + {s[|s| - 1]};
      assert s[|s| - 1] !in init;
    }
  }

  // ---------------------------------------------------------------------
  // The number of elements across all the lists a dict holds
  // ---------------------------------------------------------------------

  function SumLengths<K(==,!new), T>(keys: seq<K>, items: map<K, seq<T>>): nat
  {
    if keys == [] then 0
    else (if keys[0] in items then |items[keys[0]]| else 0) + SumLengths(keys[1..], items)
  }

  /** `sum(len(v) for v in d.values())` */
  function TotalLength<K(==,!new), T>(d: Dict<K, seq<T>>): nat
  {
    SumLengths(d.keys, d.items)
  }

  lemma {:induction false} SumLengthsOutside<K(!new), T(!new)>(keys: seq<K>, items: map<K, seq<T>>, k: K, v: seq<T>)
    requires k !in keys
    ensures SumLengths(keys, items[k := v]) == SumLengths(keys, items)
    ensures SumLengths(keys, items - {k}) == SumLengths(keys, items)
  {
    if keys != [] {
      SumLengthsOutside(keys[1..], items, k, v);
    }
  }

  lemma {:induction false} SumLengthsUpdate<K(!new), T(!new)>(keys: seq<K>, items: map<K, seq<T>>, k: K, v: seq<T>)
    requires forall i, j :: 0 <= i < j < |keys| ==> keys[i] != keys[j]
    requires k in keys && k in items
    ensures SumLengths(keys, items[k := v]) + |items[k]| == SumLengths(keys, items) + |v|
  {
    if keys[0] == k {
      assert k !in keys[1..];
      SumLengthsOutside(keys[1..], items, k, v);
    } else {
      SumLengthsUpdate(keys[1..], items, k, v);
    }
  }

  lemma {:induction false} SumLengthsAppend<K(!new), T(!new)>(keys: seq<K>, items: map<K, seq<T>>, k: K)
    ensures SumLengths(keys + [k], items) == SumLengths(keys, items) + (if k in items then |items[k]| else 0)
  {
    if keys != [] {
      assert (keys + [k])[1..] == keys[1..] + [k];
      SumLengthsAppend(keys[1..], items, k);
    }
  }

  lemma {:induction false} SumLengthsRemove<K(!new), T(!new)>(keys: seq<K>, items: map<K, seq<T>>, k: K)
    requires forall i, j :: 0 <= i < j < |keys| ==> keys[i] != keys[j]
    requires k in items
    ensures SumLengths(RemoveKey(keys, k), items - {k}) + (if k in keys then |items[k]| else 0)
            == SumLengths(keys, items)
  {
    if keys != [] {
      SumLengthsRemove(keys[1..], items, k);
      if keys[0] == k {
        assert k !in keys[1..];
      }
    }
  }

  /** `d[k] = v` changes the total by the difference in length at `k`. */
  lemma PutTotal<K(!new), T(!new)>(d: Dict<K, seq<T>>, k: K, v: seq<T>)
    requires d.Valid()
    ensures TotalLength(Put(d, k, v)) + (if k in d.items then |d.items[k]| else 0) == TotalLength(d) + |v|
  {
    if k in d.items {
      SumLengthsUpdate(d.keys, d.items, k, v);
    } else {
      SumLengthsAppend(d.keys, d.items[k := v], k);
      SumLengthsOutside(d.keys, d.items, k, v);
    }
  }

  /** `del d[k]` lowers the total by the length at `k`. */
  lemma RemoveTotal<K(!new), T(!new)>(d: Dict<K, seq<T>>, k: K)
    requires d.Valid() && k in d.items
    ensures TotalLength(Remove(d, k)) + |d.items[k]| == TotalLength(d)
  {
    SumLengthsRemove(d.keys, d.items, k);
  }

  // ---------------------------------------------------------------------
  // Grouping a list into a dict of lists (`d.setdefault(k, []).append(x)`)
  // ---------------------------------------------------------------------

  /** `d.setdefault(k, []).append(x)`, and the two-step
      `if k not in d: d[k] = []` / `d[k].append(x)`. */
  function Append<K(==,!new), T>(d: Dict<K, seq<T>>, k: K, x: T): (r: Dict<K, seq<T>>)
    requires d.Valid()
    ensures r.Valid()
  {
    Put(d, k, Get(d, k, []) + [x])
  }

  /** The statements `if k not in d: d[k] = []` and `d[k].append(x)`. */
  method AppendTo<K(==,!new), T>(d: Dict<K, seq<T>>, k: K, x: T) returns (r: Dict<K, seq<T>>)
    requires d.Valid()
    ensures r == Append(d, k, x)
  {
    r := d;
    if k !in r.items {
      r := Put(r, k, []);
    }
    r := Put(r, k, r.items[k] + [x]);
  }

  /** The dict a grouping loop builds: each element appended to the list
      of its key, keys in the order they are first met. */
  function GroupBy<K(==,!new), T>(xs: seq<T>, key: T -> K): (d: Dict<K, seq<T>>)
    ensures d.Valid()
  {
    if xs == [] then Empty()
    else Append(GroupBy(xs[..|xs| - 1], key), key(xs[|xs| - 1]), xs[|xs| - 1])
  }

  /** The elements whose key is `k`, in their order. */
  function Having<K(==,!new), T(==,!new)>(xs: seq<T>, key: T -> K, k: K): (r: seq<T>)
    ensures |r| <= |xs|
    ensures forall x :: x in r <==> x in xs && key(x) == k
  {
    if xs == [] then []
    else
      var init := xs[..|xs| - 1];
      assert xs == init + [xs[|xs| - 1]];
      Having(init, key, k) + (if key(xs[|xs| - 1]) == k then [xs[|xs| - 1]] else [])
  }

  /** The keys the elements have. */
  function KeySet<K(==,!new), T>(xs: seq<T>, key: T -> K): set<K>
  {
    set i | 0 <= i < |xs| :: key(xs[i])
  }

  lemma KeySetSnoc<K(!new), T(!new)>(xs: seq<T>, key: T -> K)
    requires xs != []
    ensures KeySet(xs, key) == KeySet(xs[..|xs| - 1], key) + {key(xs[|xs| - 1])}
  {
    var init := xs[..|xs| - 1];
    forall k | k in KeySet(xs, key) ensures k in KeySet(init, key) + {key(xs[|xs| - 1])} {
      var i :| 0 <= i < |xs| && key(xs[i]) == k;
      if i < |init| { assert init[i] == xs[i]; }
    }
    forall k | k in KeySet(init, key) ensures k in KeySet(xs, key) {
      var i :| 0 <= i < |init| && key(init[i]) == k;
      assert xs[i] == init[i];
    }
  }

  /** A key no element has selects nothing. */
  lemma HavingAbsent<K(!new), T(!new)>(xs: seq<T>, key: T -> K, k: K)
    requires k !in KeySet(xs, key)
    ensures Having(xs, key, k) == []
  {
    var r := Having(xs, key, k);
    assert forall x :: x in r ==> key(x) in KeySet(xs, key);
  }

  /** There is a list for each key the elements have and for no other. */
  lemma {:induction false} GroupByKeys<K(!new), T(!new)>(xs: seq<T>, key: T -> K)
    ensures GroupBy(xs, key).items.Keys == KeySet(xs, key)
  {
    if xs != [] {
      GroupByKeys(xs[..|xs| - 1], key);
      KeySetSnoc(xs, key);
    }
  }

  /** The grouping partitions the elements: the list of key `k` holds the
      elements with key `k`, in their order, and is never empty. */
  lemma {:induction false} GroupByPartition<K(!new), T(!new)>(xs: seq<T>, key: T -> K)
    ensures GroupBy(xs, key).items.Keys == KeySet(xs, key)
    ensures forall k :: k in GroupBy(xs, key).items ==> GroupBy(xs, key).items[k] == Having(xs, key, k) != []
  {
    GroupByKeys(xs, key);
    if xs != [] {
      var init := xs[..|xs| - 1];
      GroupByPartition(init, key);
      var d, kx := GroupBy(init, key), key(xs[|xs| - 1]);
      if kx !in d.items {
        HavingAbsent(init, key, kx);
      }
      forall k | k in GroupBy(xs, key).items
        ensures GroupBy(xs, key).items[k] == Having(xs, key, k) != []
      {
        GroupByStep(xs, key, k);
      }
    }
  }

  lemma GroupByStep<K(!new), T(!new)>(xs: seq<T>, key: T -> K, k: K)
    requires xs != []
    requires var init := xs[..|xs| - 1];
             forall k :: k in GroupBy(init, key).items ==> GroupBy(init, key).items[k] == Having(init, key, k) != []
    requires var init := xs[..|xs| - 1];
             key(xs[|xs| - 1]) !in GroupBy(init, key).items ==> Having(init, key, key(xs[|xs| - 1])) == []
    requires k in GroupBy(xs, key).items
    ensures GroupBy(xs, key).items[k] == Having(xs, key, k) != []
  {
    var init := xs[..|xs| - 1];
    if k != key(xs[|xs| - 1]) {
      assert Having(xs, key, k) == Having(init, key, k) + [];
    }
  }

  /** Every element lands in exactly one list: the lengths add up to the
      number of elements. */
  lemma {:induction false} GroupByTotal<K(!new), T(!new)>(xs: seq<T>, key: T -> K)
    ensures TotalLength(GroupBy(xs, key)) == |xs|
  {
    if xs != [] {
      var init, x := xs[..|xs| - 1], xs[|xs| - 1];
      GroupByTotal(init, key);
      var d := GroupBy(init, key);
      PutTotal(d, key(x), Get(d, key(x), []) + [x]);
    }
  }

  /** With every list non-empty, there are at most as many lists as elements. */
  lemma {:induction false} ListCountBound<K(!new), T(!new)>(keys: seq<K>, items: map<K, seq<T>>)
    requires forall k :: k in keys ==> k in items && items[k] != []
    ensures |keys| <= SumLengths(keys, items)
  {
    if keys != [] {
      ListCountBound(keys[1..], items);
    }
  }

  /** The number of lists is the number of distinct keys, at most the
      number of elements. */
  lemma GroupByCount<K(!new), T(!new)>(xs: seq<T>, key: T -> K)
    ensures |GroupBy(xs, key).keys| == |KeySet(xs, key)| <= |xs|
  {
    var d := GroupBy(xs, key);
    DistinctCardinality(d.keys);
    GroupByPartition(xs, key);
    assert (set x | x in d.keys) == d.items.Keys;
    GroupByTotal(xs, key);
    ListCountBound(d.keys, d.items);
  }
}
