/** Python dictionaries as values: a finite map together with the order
    in which its keys were first inserted (the order `keys()` reports).
    Every dictionary of the modelled code is keyed by strings. */
module Dicts {
  import opened Common

  type Key = string

  datatype Dict<V> = Dict(keys: seq<Key>, items: map<Key, V>)

  /** The key order lists every key of the map exactly once. */
  ghost predicate Valid<V>(d: Dict<V>) {
    && Distinct(d.keys)
    && forall k :: k in d.items <==> k in d.keys
  }

  /** `{}` */
  function Empty<V>(): (d: Dict<V>)
    ensures Valid(d) && d.keys == [] && d.items == map[]
  {
    Dict([], map[])
  }

  /** `d[k] = v`: an existing key keeps its place, a new key goes last. */
  function Put<V>(d: Dict<V>, k: Key, v: V): (r: Dict<V>)
    requires Valid(d)
    ensures Valid(r)
    ensures r.items == d.items[k := v]
    ensures k in d.items ==> r.keys == d.keys
    ensures k !in d.items ==> r.keys == d.keys + [k]
  {
    if k in d.items then Dict(d.keys, d.items[k := v])
    else Dict(d.keys + [k], d.items[k := v])
  }

  /** The elements of `ks` that are not in `present`, in order. */
  function Missing(ks: seq<Key>, present: set<Key>): seq<Key> {
    if ks == [] then []
    else Missing(ks[..|ks| - 1], present)
         + (if ks[|ks| - 1] in present then [] else [ks[|ks| - 1]])
  }

  lemma {:induction false} MissingSpec(ks: seq<Key>, present: set<Key>, k: Key)
    ensures k in Missing(ks, present) <==> k in ks && k !in present
  {
    if ks != [] {
      MissingSpec(ks[..|ks| - 1], present, k);
      assert ks == ks[..|ks| - 1] + [ks[|ks| - 1]];
    }
  }

  lemma {:induction false} MissingNothing(ks: seq<Key>)
    ensures Missing(ks, {}) == ks
  {
    if ks != [] {
      MissingNothing(ks[..|ks| - 1]);
      assert ks == ks[..|ks| - 1] + [ks[|ks| - 1]];
    }
  }

  /** The value a merge stores under `k`: where `d` holds a live value, the
      two are combined; otherwise `e`'s value replaces whatever `d` had. */
  function Merged<V>(d: Dict<V>, e: Dict<V>, k: Key, live: V -> bool, combine: (V, V) -> V): V
    requires k in e.items
  {
    if k in d.items && live(d.items[k]) then combine(d.items[k], e.items[k]) else e.items[k]
  }

  /** The loop `for k, v in e.items(): cur = d.get(k); d[k] = combine(cur, v)
      if cur is live else v`, after its first `n` rounds. */
  function MergePrefix<V>(d: Dict<V>, e: Dict<V>, n: nat, live: V -> bool, combine: (V, V) -> V): (r: Dict<V>)
    requires Valid(d) && Valid(e) && n <= |e.keys|
    ensures Valid(r)
  {
    if n == 0 then d
    else
      var acc := MergePrefix(d, e, n - 1, live, combine);
      Put(acc, e.keys[n - 1], Merged(acc, e, e.keys[n - 1], live, combine))
  }

  /** After `n` rounds, the keys of `e` seen so far hold their merged values
      (computed against the ORIGINAL `d`, since each key of `e` comes once),
      and every other key of `d` is untouched. */
  lemma {:induction false} MergePrefixAt<V>(d: Dict<V>, e: Dict<V>, n: nat, live: V -> bool, combine: (V, V) -> V, k: Key)
    requires Valid(d) && Valid(e) && n <= |e.keys|
    ensures k in MergePrefix(d, e, n, live, combine).items <==> k in d.items || k in e.keys[..n]
    ensures k in e.keys[..n] ==> MergePrefix(d, e, n, live, combine).items[k] == Merged(d, e, k, live, combine)
    ensures k in d.items && k !in e.keys[..n] ==> MergePrefix(d, e, n, live, combine).items[k] == d.items[k]
  {
    if n > 0 {
      var j := e.keys[n - 1];
      var acc := MergePrefix(d, e, n - 1, live, combine);
      var v := Merged(acc, e, j, live, combine);
      assert MergePrefix(d, e, n, live, combine).items == acc.items[j := v];
      assert k in e.keys[..n] <==> k in e.keys[..n - 1] || k == j by {
        assert e.keys[..n] == e.keys[..n - 1] + [j];
      }
      if k == j {
        assert j !in e.keys[..n - 1] by {
          forall i | 0 <= i < n - 1 ensures e.keys[i] != j { }
        }
        MergePrefixAt(d, e, n - 1, live, combine, j);
        assert v == Merged(d, e, j, live, combine);
      } else {
        MergePrefixAt(d, e, n - 1, live, combine, k);
      }
    }
  }

  lemma {:induction false} MergePrefixKeys<V>(d: Dict<V>, e: Dict<V>, n: nat, live: V -> bool, combine: (V, V) -> V)
    requires Valid(d) && Valid(e) && n <= |e.keys|
    ensures MergePrefix(d, e, n, live, combine).keys == d.keys + Missing(e.keys[..n], d.items.Keys)
  {
    if n > 0 {
      var k := e.keys[n - 1];
      var ks := e.keys[..n];
      MergePrefixKeys(d, e, n - 1, live, combine);
      assert ks[..|ks| - 1] == e.keys[..n - 1];
      assert Missing(ks, d.items.Keys) == Missing(e.keys[..n - 1], d.items.Keys)
        + (if k in d.items.Keys then [] else [k]);
      assert k !in e.keys[..n - 1] by {
        forall j | 0 <= j < n - 1 ensures e.keys[j] != k { }
      }
      MergePrefixAt(d, e, n - 1, live, combine, k);
    }
  }

  /** The whole loop.  Every key of either side is present; a key of `e` holds
      its merged value, a key only in `d` keeps its value; `d`'s keys keep
      their order and `e`'s new keys follow in `e`'s order. */
  function Merge<V>(d: Dict<V>, e: Dict<V>, live: V -> bool, combine: (V, V) -> V): (r: Dict<V>)
    requires Valid(d) && Valid(e)
    ensures Valid(r)
    ensures forall k :: k in r.items <==> k in d.items || k in e.items
    ensures forall k :: k in e.items ==> r.items[k] == Merged(d, e, k, live, combine)
    ensures forall k :: k in d.items && k !in e.items ==> r.items[k] == d.items[k]
    ensures r.keys == d.keys + Missing(e.keys, d.items.Keys)
  {
    var r := MergePrefix(d, e, |e.keys|, live, combine);
    assert e.keys[..|e.keys|] == e.keys;
    MergePrefixKeys(d, e, |e.keys|, live, combine);
    forall k ensures k in r.items <==> k in d.items || k in e.items {
      MergePrefixAt(d, e, |e.keys|, live, combine, k);
    }
    forall k | k in e.items ensures r.items[k] == Merged(d, e, k, live, combine) {
      MergePrefixAt(d, e, |e.keys|, live, combine, k);
    }
    forall k | k in d.items && k !in e.items ensures r.items[k] == d.items[k] {
      MergePrefixAt(d, e, |e.keys|, live, combine, k);
    }
    r
  }

  /** `{**d, **e}`: every entry of `e` overrides or extends `d`. */
  function Update<V>(d: Dict<V>, e: Dict<V>): (r: Dict<V>)
    requires Valid(d) && Valid(e)
    ensures Valid(r)
    ensures r.items == d.items + e.items
    ensures r.keys == d.keys + Missing(e.keys, d.items.Keys)
  {
    Merge(d, e, _ => false, (a, b) => b)
  }

  /** `dict(pairs)` or `{k: v for k, v in pairs}`: a later pair for the same
      key overrides the value, the key keeps the place of its first pair. */
  function FromPairs<V>(pairs: seq<(Key, V)>): (r: Dict<V>)
    ensures Valid(r)
  {
    if pairs == [] then Empty()
    else
      var last := pairs[|pairs| - 1];
      Put(FromPairs(pairs[..|pairs| - 1]), last.0, last.1)
  }

  /** A key is present exactly when some pair carries it, and its value is
      that of the last pair that carries it. */
  lemma {:induction false} FromPairsSpec<V>(pairs: seq<(Key, V)>, j: nat)
    requires j < |pairs|
    requires forall i :: j < i < |pairs| ==> pairs[i].0 != pairs[j].0
    ensures pairs[j].0 in FromPairs(pairs).items
    ensures FromPairs(pairs).items[pairs[j].0] == pairs[j].1
  {
    if j < |pairs| - 1 {
      FromPairsSpec(pairs[..|pairs| - 1], j);
    }
  }

  lemma {:induction false} FromPairsDomain<V>(pairs: seq<(Key, V)>, k: Key)
    ensures k in FromPairs(pairs).items <==> exists i :: 0 <= i < |pairs| && pairs[i].0 == k
  {
    if pairs != [] {
      var init := pairs[..|pairs| - 1];
      FromPairsDomain(init, k);
      if exists i :: 0 <= i < |pairs| && pairs[i].0 == k {
        var i :| 0 <= i < |pairs| && pairs[i].0 == k;
        if i < |pairs| - 1 { assert init[i].0 == k; }
      }
    }
  }

  /** With distinct keys the pairs keep their order and every value. */
  lemma {:induction false} FromDistinctPairs<V>(pairs: seq<(Key, V)>)
    requires forall i, j :: 0 <= i < j < |pairs| ==> pairs[i].0 != pairs[j].0
    ensures |FromPairs(pairs).keys| == |pairs|
    ensures forall i :: 0 <= i < |pairs| ==>
      FromPairs(pairs).keys[i] == pairs[i].0 && FromPairs(pairs).items[pairs[i].0] == pairs[i].1
  {
    if pairs != [] {
      var init := pairs[..|pairs| - 1];
      FromDistinctPairs(init);
      var last := pairs[|pairs| - 1];
      assert last.0 !in FromPairs(init).items by {
        FromPairsDomain(init, last.0);
      }
    }
  }
}
