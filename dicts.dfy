/**
 * Insertion-ordered dictionaries with string keys, as Python's `dict`.
 * A `Dict` is the order in which the keys were first inserted together
 * with the key-to-value map; `Valid` ties the two together.
 */
module Dicts {
  import opened Wrappers

  datatype Dict<V> = Dict(keys: seq<string>, items: map<string, V>)

  predicate Distinct(s: seq<string>)
  {
    forall i, j :: 0 <= i < j < |s| ==> s[i] != s[j]
  }

  /** The key sequence lists every key of the map exactly once. */
  ghost predicate Valid<V>(d: Dict<V>)
  {
    Distinct(d.keys) && forall k :: k in d.items <==> k in d.keys
  }

  /** Every listed key has a value: all that reading `d[k]` for each listed `k` needs. */
  ghost predicate KeysPresent<V>(d: Dict<V>)
  {
    forall i :: 0 <= i < |d.keys| ==> d.keys[i] in d.items
  }

  lemma ValidKeysPresent<V>(d: Dict<V>)
    requires Valid(d)
    ensures KeysPresent(d)
  {
  }

  function Empty<V>(): (d: Dict<V>)
    ensures Valid(d) && d.keys == [] && d.items == map[]
  {
    Dict([], map[])
  }

  function Lookup<V>(d: Dict<V>, k: string): (r: Option<V>)
    ensures r.Some? <==> k in d.items
    ensures r.Some? ==> r.value == d.items[k]
  {
    if k in d.items then Some(d.items[k]) else None
  }

  /**
   * `d[k] = v`: an existing key keeps its position and only its value
   * changes; a new key goes to the end.
   */
  function Put<V>(d: Dict<V>, k: string, v: V): (r: Dict<V>)
    requires Valid(d)
    ensures Valid(r)
    ensures r.items == d.items[k := v]
    ensures k in d.items ==> r.keys == d.keys
    ensures k !in d.items ==> r.keys == d.keys + [k]
  {
    if k in d.items then Dict(d.keys, d.items[k := v])
    else
      var r := Dict(d.keys + [k], d.items[k := v]);
      assert forall i :: 0 <= i < |d.keys| ==> r.keys[i] == d.keys[i];
      r
  }

  /** The elements of `s` that are not in `base`, in the order of `s`. */
  function NewKeys(base: seq<string>, s: seq<string>): (r: seq<string>)
    ensures forall k :: k in r <==> k in s && k !in base
    ensures Distinct(s) ==> Distinct(r)
  {
    if s == [] then []
    else
      var p := NewKeys(base, s[..|s| - 1]);
      var last := s[|s| - 1];
      assert forall k :: k in s <==> k in s[..|s| - 1] || k == last;
      if last in base then p
      else
        assert Distinct(s) ==> last !in s[..|s| - 1];
        var r := p + [last];
        assert forall i :: 0 <= i < |p| ==> r[i] == p[i];
        r
  }

  /** Extending `s` by one element extends `NewKeys` by that element unless `base` has it. */
  lemma NewKeysSnoc(base: seq<string>, s: seq<string>, n: nat)
    requires Distinct(s) && 0 < n <= |s|
    ensures NewKeys(base, s[..n]) ==
            NewKeys(base, s[..n - 1]) + (if s[n - 1] in base then [] else [s[n - 1]])
    ensures s[n - 1] !in NewKeys(base, s[..n - 1])
  {
    assert s[..n][..n - 1] == s[..n - 1];
    DistinctLastIsNew(s, n);
  }

  /** In a sequence without repetitions, the element at position `n - 1` is not among the first `n - 1`. */
  lemma DistinctLastIsNew(s: seq<string>, n: nat)
    requires Distinct(s) && 0 < n <= |s|
    ensures s[n - 1] !in s[..n - 1]
  {
    assert forall i :: 0 <= i < n - 1 ==> s[i] != s[n - 1];
  }

  lemma SeqAssociative<T>(a: seq<T>, b: seq<T>, c: seq<T>)
    ensures (a + b) + c == a + (b + c)
  {
  }

  /** `d.update(e)` restricted to the first `n` keys of `e`. */
  function UpdatePrefix<V>(d: Dict<V>, e: Dict<V>, n: nat): (r: Dict<V>)
    requires Valid(d) && Valid(e) && n <= |e.keys|
    ensures Valid(r)
    decreases n
  {
    if n == 0 then d
    else
      var k := e.keys[n - 1];
      Put(UpdatePrefix(d, e, n - 1), k, e.items[k])
  }

  /** `d.update(e)`: Python inserts the items of `e` one by one, in `e`'s order. */
  function Update<V>(d: Dict<V>, e: Dict<V>): (r: Dict<V>)
    requires Valid(d) && Valid(e)
    ensures Valid(r)
  {
    UpdatePrefix(d, e, |e.keys|)
  }

  /** One more key of `e` is appended exactly when `d` does not have it. */
  lemma UpdatePrefixKeysStep<V>(d: Dict<V>, e: Dict<V>, n: nat)
    requires Valid(d) && Valid(e) && 0 < n <= |e.keys|
    ensures UpdatePrefix(d, e, n).keys ==
            UpdatePrefix(d, e, n - 1).keys + (if e.keys[n - 1] in d.keys then [] else [e.keys[n - 1]])
  {
    var k := e.keys[n - 1];
    var p := UpdatePrefix(d, e, n - 1);
    DistinctLastIsNew(e.keys, n);
    UpdatePrefixHas(d, e, n - 1, k);
    PutKeys(p, k, e.items[k], k in d.keys);
  }

  lemma PutKeys<V>(d: Dict<V>, k: string, v: V, present: bool)
    requires Valid(d) && (k in d.items <==> present)
    ensures Put(d, k, v).keys == d.keys + (if present then [] else [k])
  {
  }

  /** After the first `n` keys of `e`, the keys present are those of `d` and those `n` keys. */
  lemma {:induction false} UpdatePrefixHas<V>(d: Dict<V>, e: Dict<V>, n: nat, k: string)
    requires Valid(d) && Valid(e) && n <= |e.keys|
    ensures k in UpdatePrefix(d, e, n).items <==> k in d.keys || k in e.keys[..n]
  {
    if n > 0 {
      UpdatePrefixHas(d, e, n - 1, k);
      assert k in e.keys[..n] <==> k in e.keys[..n - 1] || k == e.keys[n - 1];
    }
  }

  lemma {:induction false} UpdatePrefixKeys<V>(d: Dict<V>, e: Dict<V>, n: nat)
    requires Valid(d) && Valid(e) && n <= |e.keys|
    ensures UpdatePrefix(d, e, n).keys == d.keys + NewKeys(d.keys, e.keys[..n])
  {
    if n > 0 {
      UpdatePrefixKeys(d, e, n - 1);
      UpdatePrefixKeysStep(d, e, n);
      NewKeysSnoc(d.keys, e.keys, n);
      var k := e.keys[n - 1];
      SeqAssociative(d.keys, NewKeys(d.keys, e.keys[..n - 1]), if k in d.keys then [] else [k]);
    }
  }

  lemma {:induction false} UpdatePrefixLookup<V>(d: Dict<V>, e: Dict<V>, n: nat, k: string)
    requires Valid(d) && Valid(e) && n <= |e.keys|
    ensures Lookup(UpdatePrefix(d, e, n), k) ==
            (if k in e.keys[..n] then Some(e.items[k]) else Lookup(d, k))
  {
    if n > 0 {
      UpdatePrefixLookup(d, e, n - 1, k);
      assert k in e.keys[..n] <==> k in e.keys[..n - 1] || k == e.keys[n - 1];
    }
  }

  /**
   * `update` is a right-biased union: the values of `e` win, every key of
   * `d` keeps its position, and the keys new to `d` follow in `e`'s order.
   */
  lemma UpdateIsRightBiasedUnion<V>(d: Dict<V>, e: Dict<V>)
    requires Valid(d) && Valid(e)
    ensures Update(d, e).items == d.items + e.items
    ensures Update(d, e).keys == d.keys + NewKeys(d.keys, e.keys)
  {
    var n := |e.keys|;
    assert e.keys[..n] == e.keys;
    UpdatePrefixKeys(d, e, n);
    var r := Update(d, e);
    var u := d.items + e.items;
    forall k | k in r.items ensures k in u && r.items[k] == u[k] {
      UpdatePrefixLookup(d, e, n, k);
    }
    forall k | k in u ensures k in r.items {
      UpdatePrefixLookup(d, e, n, k);
    }
    assert r.items.Keys == u.Keys;
  }

  /** Against an empty base every key is new. */
  lemma {:induction false} NewKeysFromEmpty(s: seq<string>)
    ensures NewKeys([], s) == s
    decreases |s|
  {
    if s != [] {
      NewKeysFromEmpty(s[..|s| - 1]);
      assert s[|s| - 1] !in [];
      assert s == s[..|s| - 1] + [s[|s| - 1]];
    }
  }

  lemma EmptyUnion<V>(m: map<string, V>)
    ensures map[] + m == m
  {
  }

  /** Updating an empty dict copies the other one, order included. */
  lemma UpdateIntoEmpty<V>(e: Dict<V>)
    requires Valid(e)
    ensures Update(Empty(), e) == e
  {
    UpdateIsRightBiasedUnion(Empty(), e);
    NewKeysFromEmpty(e.keys);
    EmptyUnion(e.items);
  }

  /** The offset table: namespace -> (offset name -> hexadecimal text). */
  type Table = Dict<Dict<string>>

  ghost predicate TableValid(t: Table)
  {
    Valid(t) && forall ns :: ns in t.items ==> Valid(t.items[ns])
  }

  /** `t[ns][name]`, if both keys are present. */
  function Entry(t: Table, ns: string, name: string): (r: Option<string>)
    ensures r.Some? <==> ns in t.items && name in t.items[ns].items
  {
    if ns in t.items then Lookup(t.items[ns], name) else None
  }
}
