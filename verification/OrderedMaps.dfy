/** A JavaScript `Map`: its keys in insertion order, and the value stored under each. */
module OrderedMaps {
  import opened Common

  /** The list without element k; the others keep their order. */
  function Without<T(==)>(s: seq<T>, k: T): seq<T> {
    if s == [] then []
    else if s[0] == k then Without(s[1..], k)
    else [s[0]] + Without(s[1..], k)
  }

  lemma {:induction false} WithoutElements<T>(s: seq<T>, k: T)
    ensures forall x :: x in Without(s, k) <==> x in s && x != k
    ensures Distinct(s) ==> Distinct(Without(s, k))
  {
    if s != [] {
      WithoutElements(s[1..], k);
      assert s == [s[0]] + s[1..];
      if Distinct(s) && s[0] != k {
        assert s[0] !in s[1..];
        var w := Without(s[1..], k);
        forall i, j | 0 <= i < j < |[s[0]] + w| ensures ([s[0]] + w)[i] != ([s[0]] + w)[j] {
          assert w[j - 1] in w;
        }
      }
    }
  }

  lemma {:induction false} WithoutAbsent<T>(s: seq<T>, k: T)
    requires k !in s
    ensures Without(s, k) == s
  {
    if s != [] {
      WithoutAbsent(s[1..], k);
    }
  }

  lemma WithoutHead<T>(s: seq<T>)
    requires s != [] && Distinct(s)
    ensures Without(s, s[0]) == s[1..]
  {
    assert s[0] !in s[1..];
    WithoutAbsent(s[1..], s[0]);
  }

  lemma {:induction false} WithoutAppend<T>(a: seq<T>, b: seq<T>, k: T)
    ensures Without(a + b, k) == Without(a, k) + Without(b, k)
  {
    if a == [] {
      assert a + b == b;
    } else {
      WithoutAppend(a[1..], b, k);
      assert (a + b)[1..] == a[1..] + b;
    }
  }

  lemma {:induction false} WithoutLength<T>(s: seq<T>, k: T)
    requires Distinct(s)
    ensures |Without(s, k)| == if k in s then |s| - 1 else |s|
  {
    if k !in s {
      WithoutAbsent(s, k);
    } else if s[0] == k {
      WithoutHead(s);
    } else {
      WithoutLength(s[1..], k);
    }
  }

  datatype OrderedMap<K(==, !new), V> = OrderedMap(keys: seq<K>, vals: map<K, V>)
  {
    ghost predicate Valid() {
      && Distinct(keys)
      && (forall k :: k in keys <==> k in vals)
    }

    /** `size` */
    function Size(): nat { |keys| }

    /** `get` */
    function Get(k: K): Option<V> {
      if k in vals then Some(vals[k]) else None
    }

    /** `set`: a new key goes to the end, an old one keeps its place. */
    function Put(k: K, v: V): (m: OrderedMap<K, V>)
      requires Valid()
      ensures m.Valid()
    {
      OrderedMap(if k in vals then keys else keys + [k], vals[k := v])
    }

    /** `delete` */
    function Delete(k: K): (m: OrderedMap<K, V>)
      requires Valid()
      ensures m.Valid() && k !in m.vals
    {
      WithoutElements(keys, k);
      OrderedMap(Without(keys, k), vals - {k})
    }

    /** `delete` then `set`: the key ends up last. */
    function Renew(k: K, v: V): (m: OrderedMap<K, V>)
      requires Valid()
      ensures m.Valid() && m.keys == Without(keys, k) + [k] && m.vals == vals[k := v]
    {
      var rest := Delete(k);
      assert rest.vals[k := v] == vals[k := v];
      rest.Put(k, v)
    }

    /** `values()`, in insertion order */
    function Values(): (s: seq<V>)
      requires Valid()
      ensures |s| == |keys|
    {
      seq(|keys|, i requires 0 <= i < |keys| && keys[i] in vals => vals[keys[i]])
    }
  }

  /** The values are what is stored under the keys, one each. */
  lemma ValuesAreStored<K(!new), V>(m: OrderedMap<K, V>)
    requires m.Valid()
    ensures |m.Values()| == |m.vals|
    ensures forall k :: k in m.vals ==> m.vals[k] in m.Values()
    ensures forall v :: v in m.Values() ==> v in m.vals.Values
  {
    DistinctSize(m.keys);
    assert ToSet(m.keys) == m.vals.Keys;
    forall k | k in m.vals ensures m.vals[k] in m.Values() {
      var i :| 0 <= i < |m.keys| && m.keys[i] == k;
      assert m.Values()[i] == m.vals[k];
    }
  }
}
