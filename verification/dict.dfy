/**
 A Python dict as the book store uses it: a finite map together with the
 order in which its keys were first inserted. Assigning to a present key
 keeps its position, assigning to a new key appends it, `del` removes it,
 and `values()` walks the keys in that order.
 */
module Dict {

  datatype Option<T> = None | Some(value: T)

  datatype Dict<K, V> = Dict(order: seq<K>, entries: map<K, V>)

  /** No key occurs twice in `xs`. */
  ghost predicate Distinct<K>(xs: seq<K>) {
    forall i, j :: 0 <= i < j < |xs| ==> xs[i] != xs[j]
  }

  /** The insertion order lists every key of the map exactly once. */
  ghost predicate Valid<K, V>(d: Dict<K, V>) {
    && Distinct(d.order)
    && (forall k :: k in d.order ==> k in d.entries)
    && (forall k :: k in d.entries ==> k in d.order)
  }

  /** `{}` */
  function Empty<K(==), V>(): (d: Dict<K, V>)
    ensures Valid(d)
    ensures |d.entries| == 0
  {
    Dict([], map[])
  }

  /** `d.get(k)`: the value under `k`, or `None` when `k` is absent. */
  function Get<K(==), V>(d: Dict<K, V>, k: K): (r: Option<V>)
    ensures r.Some? <==> k in d.entries
    ensures r.Some? ==> r.value == d.entries[k]
  {
    if k in d.entries then Some(d.entries[k]) else None
  }

  /** `d[k] = v`: the map gains or overwrites `k`; the order gains `k` only when it is new. */
  function Put<K(==), V>(d: Dict<K, V>, k: K, v: V): (r: Dict<K, V>)
    ensures r.entries == d.entries[k := v]
    ensures Valid(d) ==> Valid(r)
  {
    if k in d.entries then Dict(d.order, d.entries[k := v])
    else Dict(d.order + [k], d.entries[k := v])
  }

  /** `xs` with every occurrence of `k` taken out, the rest in their order. */
  function Without<K(==)>(xs: seq<K>, k: K): (r: seq<K>)
    ensures forall x :: x in r ==> x in xs && x != k
    ensures forall x :: x in xs && x != k ==> x in r
    ensures |r| <= |xs|
    ensures Distinct(xs) ==> Distinct(r)
    ensures k !in xs ==> r == xs
  {
    if xs == [] then []
    else if xs[0] == k then Without(xs[1..], k)
    else
      var rest := Without(xs[1..], k);
      assert Distinct(xs) ==> xs[0] !in xs[1..];
      [xs[0]] + rest
  }

  /** `del d[k]`; Python raises `KeyError` for an absent key, so the caller
      must have found `k` present. */
  function Remove<K(==), V>(d: Dict<K, V>, k: K): (r: Dict<K, V>)
    requires k in d.entries
    ensures r.entries == d.entries - {k}
    ensures Valid(d) ==> Valid(r)
  {
    Dict(Without(d.order, k), d.entries - {k})
  }

  /** The values stored under `ks`, in the order of `ks`. A well-formed dict
      has every key of its order in its map; the guard keeps the function total. */
  function ValuesOf<K(==), V>(ks: seq<K>, m: map<K, V>): (vs: seq<V>)
    ensures |vs| <= |ks|
    ensures (forall k :: k in ks ==> k in m) ==>
              |vs| == |ks| && forall i :: 0 <= i < |ks| ==> vs[i] == m[ks[i]]
  {
    if ks == [] then []
    else (if ks[0] in m then [m[ks[0]]] else []) + ValuesOf(ks[1..], m)
  }

  /** `ValuesOf` is determined by the values it should find at each position. */
  lemma ValuesOfPointwise<K, V>(ks: seq<K>, m: map<K, V>, vs: seq<V>)
    requires |vs| == |ks|
    requires forall j :: 0 <= j < |ks| ==> ks[j] in m && m[ks[j]] == vs[j]
    ensures ValuesOf(ks, m) == vs
  {
    forall k | k in ks
      ensures k in m
    {
      var j :| 0 <= j < |ks| && ks[j] == k;
    }
  }

  /** `list(d.values())`: in a well-formed dict, one value per inserted key. */
  function Values<K(==), V>(d: Dict<K, V>): (vs: seq<V>)
    ensures Valid(d) ==> |vs| == |d.order|
  {
    ValuesOf(d.order, d.entries)
  }

  /** A sequence without repetitions has as many elements as its set of elements. */
  lemma {:induction false} DistinctSize<K>(xs: seq<K>)
    requires Distinct(xs)
    ensures |set x | x in xs| == |xs|
  {
    if xs != [] {
      DistinctSize(xs[1..]);
      assert (set x | x in xs) == {xs[0]} + (set x | x in xs[1..]);
      assert xs[0] !in (set x | x in xs[1..]);
    }
  }

  /** In a well-formed dict, `values()` lists each stored value's key once: it
      has one element per entry, and a value occurs in it exactly when some
      key maps to it. */
  lemma ValuesAreEntries<K, V>(d: Dict<K, V>)
    ensures Valid(d) ==> |Values(d)| == |d.entries|
    ensures Valid(d) ==> forall i :: 0 <= i < |d.order| ==> Values(d)[i] == d.entries[d.order[i]]
    ensures Valid(d) ==> forall v :: v in Values(d) <==> v in d.entries.Values
  {
    if !Valid(d) {
      return;
    }
    var vs := Values(d);
    DistinctSize(d.order);
    assert (set x | x in d.order) == d.entries.Keys;
    forall v | v in d.entries.Values
      ensures v in vs
    {
      var k :| k in d.entries && d.entries[k] == v;
      var i :| 0 <= i < |d.order| && d.order[i] == k;
      assert vs[i] == v;
    }
    forall v | v in vs
      ensures v in d.entries.Values
    {
      var i :| 0 <= i < |vs| && vs[i] == v;
      assert d.order[i] in d.entries;
    }
  }

  /** Assigning a new key appends its value at the end of `values()`. */
  lemma ValuesAfterPutNew<K, V>(d: Dict<K, V>, k: K, v: V)
    requires Valid(d)
    requires k !in d.entries
    ensures Values(Put(d, k, v)) == Values(d) + [v]
  {
    var r := Put(d, k, v);
    assert r.order == d.order + [k];
    var a, b := Values(r), Values(d) + [v];
    assert |a| == |b|;
    forall i | 0 <= i < |a|
      ensures a[i] == b[i]
    {
      if i < |d.order| {
        assert d.order[i] in d.entries;
      }
    }
  }

  /** Assigning a present key replaces its value where it stands in `values()`. */
  lemma ValuesAfterPutPresent<K, V>(d: Dict<K, V>, k: K, v: V, i: nat)
    requires Valid(d)
    requires i < |d.order| && d.order[i] == k
    ensures Values(Put(d, k, v)) == Values(d)[i := v]
  {
    var a, b := Values(Put(d, k, v)), Values(d)[i := v];
    assert |a| == |b|;
    forall j | 0 <= j < |a|
      ensures a[j] == b[j]
    {
      if j != i {
        assert d.order[j] != k;
      }
    }
  }

  /** Taking a key out of a sequence without repetitions closes the gap it leaves. */
  lemma {:induction false} WithoutAt<K>(xs: seq<K>, k: K, i: nat)
    requires Distinct(xs)
    requires i < |xs| && xs[i] == k
    ensures Without(xs, k) == xs[..i] + xs[i + 1..]
  {
    if i == 0 {
      assert k !in xs[1..];
      assert Without(xs[1..], k) == xs[1..];
    } else {
      assert xs[1..][i - 1] == k;
      WithoutAt(xs[1..], k, i - 1);
      assert xs[1..][..i - 1] + xs[1..][i..] == xs[1..i] + xs[i + 1..];
      assert xs[..i] + xs[i + 1..] == [xs[0]] + (xs[1..i] + xs[i + 1..]);
    }
  }

  /** `del d[k]` removes exactly `k`'s value from `values()`, keeping the rest in order. */
  lemma ValuesAfterRemove<K, V>(d: Dict<K, V>, k: K, i: nat)
    requires Valid(d)
    requires i < |d.order| && d.order[i] == k
    ensures Values(Remove(d, k)) == Values(d)[..i] + Values(d)[i + 1..]
  {
    WithoutAt(d.order, k, i);
    var ro, m := d.order[..i] + d.order[i + 1..], d.entries - {k};
    assert Remove(d, k) == Dict(ro, m);
    var vs := ValuesOf(d.order, d.entries);
    var b := vs[..i] + vs[i + 1..];
    forall j | 0 <= j < |ro|
      ensures ro[j] in m && m[ro[j]] == b[j]
    {
      var j' := if j < i then j else j + 1;
      assert ro[j] == d.order[j'] && j' != i;
      assert b[j] == vs[j'];
    }
    ValuesOfPointwise(ro, m, b);
  }
}
