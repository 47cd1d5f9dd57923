/** Python's insertion-ordered `dict`. Iteration order decides tie-breaks all
    over the estimators (stable sorts of `items()`, the first match in a store,
    the order of file author lists), so the model keeps it explicitly. */
module Dicts {
  import opened Wrappers
  import Seqs

  /** `vals` holds the entries, `keys` lists every key once in insertion order. */
  datatype Dict<K(==), V> = Dict(keys: seq<K>, vals: map<K, V>)

  ghost predicate Valid<K, V>(d: Dict<K, V>) {
    && Seqs.Distinct(d.keys)
    && (forall k :: k in d.vals ==> k in d.keys)
    && (forall i :: 0 <= i < |d.keys| ==> d.keys[i] in d.vals)
  }

  function Empty<K(==), V>(): (r: Dict<K, V>)
    ensures Valid(r) && r.keys == [] && r.vals == map[]
  {
    Dict([], map[])
  }

  /** `d.get(k)`. */
  function Get<K(==), V>(d: Dict<K, V>, k: K): Option<V> {
    if k in d.vals then Some(d.vals[k]) else None
  }

  /** `d[k] = v`: a new key goes to the end, an existing key keeps its place. */
  function Put<K(==), V>(d: Dict<K, V>, k: K, v: V): (r: Dict<K, V>)
    ensures r.vals == d.vals[k := v]
    ensures k in d.vals ==> r.keys == d.keys
    ensures k !in d.vals ==> r.keys == d.keys + [k]
    ensures Valid(d) ==> Valid(r)
  {
    if k in d.vals then Dict(d.keys, d.vals[k := v])
    else
      var r := Dict(d.keys + [k], d.vals[k := v]);
      assert Valid(d) ==> Seqs.Distinct(r.keys) by {
        if Valid(d) {
          assert k !in d.keys;
        }
      }
      r
  }

  /** `d.pop(k)` for a key that is present. */
  function Remove<K(==), V>(d: Dict<K, V>, k: K): (r: Dict<K, V>)
    ensures r.vals == d.vals - {k}
    ensures r.keys == Seqs.Without(d.keys, k)
    ensures Valid(d) ==> Valid(r)
  {
    var r := Dict(Seqs.Without(d.keys, k), d.vals - {k});
    assert Valid(d) ==> Valid(r) by {
      if Valid(d) {
        Seqs.WithoutDistinct(d.keys, k);
        forall i | 0 <= i < |r.keys|
          ensures r.keys[i] in r.vals
        {
          assert r.keys[i] in r.keys;
        }
      }
    }
    r
  }

  /** The values in key order, as `list(d.values())`. */
  function Values<K(==), V>(d: Dict<K, V>): (r: seq<V>)
    requires Valid(d)
    ensures |r| == |d.keys|
    ensures forall i :: 0 <= i < |r| ==> r[i] == d.vals[d.keys[i]]
  {
    seq(|d.keys|, i requires 0 <= i < |d.keys| => d.vals[d.keys[i]])
  }

  /** The entries in key order, as `list(d.items())`. */
  function Items<K(==), V>(d: Dict<K, V>): (r: seq<(K, V)>)
    requires Valid(d)
    ensures |r| == |d.keys|
    ensures forall i :: 0 <= i < |r| ==> r[i] == (d.keys[i], d.vals[d.keys[i]])
  {
    seq(|d.keys|, i requires 0 <= i < |d.keys| => (d.keys[i], d.vals[d.keys[i]]))
  }

  /** Sum of the values of a real-valued dict, `sum(d.values())`. */
  function SumValues<K(==)>(d: Dict<K, real>): real
    requires Valid(d)
  {
    Seqs.Sum(Values(d))
  }

  /** Summing the values after `d[k] = v` for an existing key swaps the old value for `v`. */
  lemma SumValuesPutExisting<K>(d: Dict<K, real>, k: K, v: real)
    requires Valid(d) && k in d.vals
    ensures SumValues(Put(d, k, v)) == SumValues(d) - d.vals[k] + v
  {
    var i :| 0 <= i < |d.keys| && d.keys[i] == k;
    var a := Values(d);
    var b := Values(Put(d, k, v));
    assert b == a[i := v] by {
      forall j | 0 <= j < |b|
        ensures b[j] == a[i := v][j]
      {
        if j != i {
          assert d.keys[j] != k;
        }
      }
    }
    Seqs.SumUpdate(a, i, v);
  }

  /** Summing the values after `d[k] = v` for a new key adds `v`. */
  lemma SumValuesPutNew<K>(d: Dict<K, real>, k: K, v: real)
    requires Valid(d) && k !in d.vals
    ensures SumValues(Put(d, k, v)) == SumValues(d) + v
  {
    var a := Values(d);
    var b := Values(Put(d, k, v));
    assert b == a + [v];
    Seqs.SumAppend(a, [v]);
  }

  /** The values paired with key `k`, in order. */
  function ValuesFor<K(==), V>(ps: seq<(K, V)>, k: K): seq<V> {
    if |ps| == 0 then []
    else ValuesFor(ps[..|ps| - 1], k) + (if ps[|ps| - 1].0 == k then [ps[|ps| - 1].1] else [])
  }

  /** The "append to the key's list, creating it if missing" loop over `ps`,
      starting from `d`; keys already present keep their places. */
  function GroupInto<K(==), V>(d: Dict<K, seq<V>>, ps: seq<(K, V)>): (r: Dict<K, seq<V>>)
    requires Valid(d)
    ensures Valid(r)
    ensures |d.keys| <= |r.keys| && r.keys[..|d.keys|] == d.keys
  {
    if |ps| == 0 then d
    else
      var r0 := GroupInto(d, ps[..|ps| - 1]);
      var (k, v) := ps[|ps| - 1];
      Put(r0, k, Get(r0, k).GetOr([]) + [v])
  }

  /** Each list ends up as its old contents followed by the values paired with
      its key, and the keys are the old ones plus every key that occurs. */
  lemma {:induction false} GroupIntoContents<K, V>(d: Dict<K, seq<V>>, ps: seq<(K, V)>, k: K)
    requires Valid(d)
    ensures var r := GroupInto(d, ps);
      && (k in r.vals <==> k in d.vals || ValuesFor(ps, k) != [])
      && (k in r.vals ==> r.vals[k] == Get(d, k).GetOr([]) + ValuesFor(ps, k))
    decreases |ps|
  {
    if |ps| > 0 {
      GroupIntoContents(d, ps[..|ps| - 1], k);
    }
  }

  /** Grouping from an empty dict: exactly the keys that occur, each with its values. */
  function Group<K(==), V>(ps: seq<(K, V)>): (r: Dict<K, seq<V>>)
    ensures Valid(r)
  {
    GroupInto(Empty(), ps)
  }

  lemma GroupContents<K, V>(ps: seq<(K, V)>, k: K)
    ensures k in Group(ps).vals <==> ValuesFor(ps, k) != []
    ensures k in Group(ps).vals ==> Group(ps).vals[k] == ValuesFor(ps, k)
  {
    GroupIntoContents(Empty(), ps, k);
  }

  /** `v` is paired with `k` somewhere in `ps` exactly when it is among `k`'s values. */
  lemma {:induction false} ValuesForMember<K, V>(ps: seq<(K, V)>, k: K, v: V)
    ensures v in ValuesFor(ps, k) <==> (k, v) in ps
    decreases |ps|
  {
    if |ps| > 0 {
      ValuesForMember(ps[..|ps| - 1], k, v);
      assert ps == ps[..|ps| - 1] + [ps[|ps| - 1]];
    }
  }

  lemma {:induction false} ValuesForAppend<K, V>(a: seq<(K, V)>, b: seq<(K, V)>, k: K)
    ensures ValuesFor(a + b, k) == ValuesFor(a, k) + ValuesFor(b, k)
    decreases |b|
  {
    if |b| == 0 {
      assert a + b == a;
    } else {
      assert (a + b)[..|a + b| - 1] == a + b[..|b| - 1];
      ValuesForAppend(a, b[..|b| - 1], k);
    }
  }
}
