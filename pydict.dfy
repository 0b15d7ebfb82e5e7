/** A Python `dict` as the statistics exercises use it: a mapping that remembers the
    order in which keys were first inserted, filled by a loop of `d[k] = v`
    assignments and then scanned with `d.items()`. */
module PyDict {
  import opened Seqs
  import opened PyBuiltins

  /** `keys` is the insertion order (what `d.items()` iterates); `vals` the mapping. */
  datatype Dict<K(==), V> = Dict(keys: seq<K>, vals: map<K, V>)
  {
    /** Every listed key is mapped, no key is listed twice, and there are as many
        mapped keys as listed ones -- so the listed keys are exactly the mapped keys. */
    predicate Valid() {
      && NoDups(keys)
      && (forall i :: 0 <= i < |keys| ==> keys[i] in vals)
      && |vals| == |keys|
    }

    /** `d.values()`, in key order. */
    function Values(): (vs: seq<V>)
      requires Valid()
      ensures |vs| == |keys|
      ensures forall i :: 0 <= i < |keys| ==> vs[i] == vals[keys[i]]
    {
      seq(|keys|, i requires 0 <= i < |keys| => vals[keys[i]])
    }

    /** `d[k] = v`: the key now maps to `v`, every other key keeps its value, and the
        existing keys keep their order; a new key goes to the end. */
    function Put(k: K, v: V): (d: Dict<K, V>)
      requires Valid()
      ensures d.Valid()
      ensures k in d.vals && d.vals[k] == v
      ensures forall k' :: k' in vals && k' != k ==> k' in d.vals && d.vals[k'] == vals[k']
      ensures |keys| <= |d.keys| <= |keys| + 1 && d.keys[..|keys|] == keys
      ensures d.vals == vals[k := v]
      ensures d.keys == if k in vals then keys else keys + [k]
    {
      if k in vals then Dict(keys, vals[k := v])
      else Dict(keys + [k], vals[k := v])
    }
  }

  /** The keys of a sequence of pairs. */
  function Firsts<K, V>(ps: seq<(K, V)>): (ks: seq<K>)
    ensures |ks| == |ps|
    ensures forall i :: 0 <= i < |ps| ==> ks[i] == ps[i].0
  {
    seq(|ps|, i requires 0 <= i < |ps| => ps[i].0)
  }

  /** The dict left by `d = {}` followed by `d[k] = v` for each pair `(k, v)` in order. */
  function FromPairs<K(==), V>(ps: seq<(K, V)>): (d: Dict<K, V>)
    ensures d.Valid()
    ensures |d.keys| <= |ps|
  {
    if ps == [] then Dict([], map[])
    else FromPairs(ps[..|ps| - 1]).Put(ps[|ps| - 1].0, ps[|ps| - 1].1)
  }

  /** The keys of `FromPairs(ps)` are the distinct keys of `ps` in first-insertion order. */
  lemma {:induction false} FromPairsKeys<K, V>(ps: seq<(K, V)>)
    ensures FromPairs(ps).keys == Dedup(Firsts(ps))
  {
    if ps != [] {
      var n := |ps| - 1;
      FromPairsKeys(ps[..n]);
      FromPairsDomain(ps[..n]);
      assert Firsts(ps[..n]) == Firsts(ps)[..n];
    }
  }

  /** A key is in `FromPairs(ps)` exactly when some pair of `ps` carries it. */
  lemma {:induction false} FromPairsHasKey<K, V>(ps: seq<(K, V)>, k: K)
    ensures k in FromPairs(ps).vals <==> k in Firsts(ps)
  {
    if ps != [] {
      var n := |ps| - 1;
      var fs, pfs := Firsts(ps), Firsts(ps[..n]);
      assert FromPairs(ps) == FromPairs(ps[..n]).Put(ps[n].0, ps[n].1);
      FromPairsHasKey(ps[..n], k);
      assert fs == pfs + [ps[n].0];
    }
  }

  /** `FromPairs(ps)` has exactly the keys that occur in `ps`. */
  lemma FromPairsDomain<K, V>(ps: seq<(K, V)>)
    ensures forall k :: k in FromPairs(ps).vals ==> k in Firsts(ps)
    ensures forall i :: 0 <= i < |ps| ==> ps[i].0 in FromPairs(ps).vals
  {
    forall k | k in FromPairs(ps).vals
      ensures k in Firsts(ps)
    {
      FromPairsHasKey(ps, k);
    }
    forall i | 0 <= i < |ps|
      ensures ps[i].0 in FromPairs(ps).vals
    {
      FromPairsHasKey(ps, ps[i].0);
      assert Firsts(ps)[i] == ps[i].0;
    }
  }

  /** Each key of `FromPairs(ps)` holds the value of the LAST pair that carries it:
      a later assignment to a key overwrites the earlier ones. */
  lemma {:induction false} FromPairsLastWriteWins<K, V>(ps: seq<(K, V)>, k: K)
    requires k in Firsts(ps)
    ensures k in FromPairs(ps).vals
    ensures FromPairs(ps).vals[k] == ps[LastIndex(Firsts(ps), k)].1
  {
    var n := |ps| - 1;
    var fs := Firsts(ps);
    var pre := FromPairs(ps[..n]);
    assert FromPairs(ps) == pre.Put(ps[n].0, ps[n].1);
    if k == ps[n].0 {
      assert LastIndex(fs, k) == n;
    } else {
      var pfs := Firsts(ps[..n]);
      var i := LastIndex(fs, k);
      assert fs[n] != k;
      assert pfs[i] == fs[i];
      FromPairsLastWriteWins(ps[..n], k);
      LastIndexUnique(pfs, k, i);
    }
  }

  /** The keys of `keys`, in order, whose value is `m`. */
  function SelectKeys<K(==)>(keys: seq<K>, vals: map<K, int>, m: int): (r: seq<K>)
    requires forall i :: 0 <= i < |keys| ==> keys[i] in vals
    ensures forall i :: 0 <= i < |r| ==> r[i] in keys && vals[r[i]] == m
    ensures forall i :: 0 <= i < |keys| && vals[keys[i]] == m ==> keys[i] in r
  {
    if keys == [] then []
    else
      var n := |keys| - 1;
      var pre := SelectKeys(keys[..n], vals, m);
      if vals[keys[n]] == m then pre + [keys[n]] else pre
  }

  /** `SelectKeys` keeps the relative order of `keys`, hence never repeats a key. */
  lemma {:induction false} SelectKeysOrder<K>(keys: seq<K>, vals: map<K, int>, m: int)
    requires NoDups(keys)
    requires forall i :: 0 <= i < |keys| ==> keys[i] in vals
    ensures forall i, j :: 0 <= i < j < |SelectKeys(keys, vals, m)| ==>
      IndexOf(keys, SelectKeys(keys, vals, m)[i]) < IndexOf(keys, SelectKeys(keys, vals, m)[j])
  {
    if keys != [] {
      var n := |keys| - 1;
      var pre := keys[..n];
      var p := SelectKeys(pre, vals, m);
      SelectKeysOrder(pre, vals, m);
      assert forall i, j :: 0 <= i < j < |p| ==> IndexOf(pre, p[i]) < IndexOf(pre, p[j]);
      var r := SelectKeys(keys, vals, m);
      assert r == if vals[keys[n]] == m then p + [keys[n]] else p;
      forall i, j | 0 <= i < j < |r|
        ensures IndexOf(keys, r[i]) < IndexOf(keys, r[j])
      {
        assert r[i] == p[i] && r[i] in pre;
        IndexOfPrefix(keys, n, r[i]);
        if j < |p| {
          assert r[j] == p[j] && r[j] in pre;
          assert IndexOf(pre, p[i]) < IndexOf(pre, p[j]);
          IndexOfPrefix(keys, n, r[j]);
        } else {
          assert r[j] == keys[n];
          assert IndexOf(pre, r[i]) < n;
          assert forall k :: 0 <= k < n ==> keys[k] != keys[n];
          assert IndexOf(keys, r[j]) == n;
        }
      }
    }
  }

  /** The keys whose value is the largest value of the dict, in the dict's order. */
  function ArgMaxKeys<K(==)>(d: Dict<K, int>): seq<K>
    requires d.Valid() && d.keys != []
  {
    SelectKeys(d.keys, d.vals, MaxOf(d.Values()))
  }

  /** The elements of a sequence without duplicates are as many as its positions. */
  lemma {:induction false} DistinctElementsCount<K>(keys: seq<K>)
    requires NoDups(keys)
    ensures |set i | 0 <= i < |keys| :: keys[i]| == |keys|
  {
    if keys != [] {
      var n := |keys| - 1;
      DistinctElementsCount(keys[..n]);
      var pre := set i | 0 <= i < n :: keys[..n][i];
      assert pre == set i | 0 <= i < n :: keys[i];
      assert (set i | 0 <= i < |keys| :: keys[i]) == pre + {keys[n]};
      assert keys[n] !in pre;
    }
  }

  /** A subset has no more elements than its superset. */
  lemma {:induction false} SubsetCardinality<K>(a: set<K>, b: set<K>)
    requires a <= b
    ensures |a| <= |b|
    decreases a
  {
    if a != {} {
      var x :| x in a;
      SubsetCardinality(a - {x}, b - {x});
    }
  }

  /** In a valid dict every mapped key is listed. */
  lemma MappedKeysListed<K, V>(d: Dict<K, V>)
    requires d.Valid()
    ensures forall k :: k in d.vals ==> k in d.keys
  {
    var listed := set i | 0 <= i < |d.keys| :: d.keys[i];
    DistinctElementsCount(d.keys);
    forall k | k in d.vals
      ensures k in d.keys
    {
      if k !in listed {
        SubsetCardinality(listed, d.vals.Keys - {k});
        assert false;
      }
      var i :| 0 <= i < |d.keys| && d.keys[i] == k;
    }
  }

  /** The largest value of a dict is at least every value it holds. */
  lemma MaxOfValuesBounds<K>(d: Dict<K, int>)
    requires d.Valid() && d.keys != []
    ensures forall k :: k in d.vals ==> d.vals[k] <= MaxOf(d.Values())
  {
    var vs := d.Values();
    MappedKeysListed(d);
    forall k | k in d.vals
      ensures d.vals[k] <= MaxOf(vs)
    {
      var i :| 0 <= i < |d.keys| && d.keys[i] == k;
      assert vs[i] == d.vals[k];
    }
  }

  /** `ArgMaxKeys` is every key whose value no other key exceeds, and only those,
      and it is never empty. */
  lemma ArgMaxKeysMaximal<K>(d: Dict<K, int>)
    requires d.Valid() && d.keys != []
    ensures ArgMaxKeys(d) != []
    ensures forall x :: x in ArgMaxKeys(d) ==> x in d.vals && forall k :: k in d.vals ==> d.vals[k] <= d.vals[x]
    ensures forall i :: 0 <= i < |d.keys| && (forall k :: k in d.vals ==> d.vals[k] <= d.vals[d.keys[i]]) ==> d.keys[i] in ArgMaxKeys(d)
  {
    var vs := d.Values();
    var m := MaxOf(vs);
    var r := ArgMaxKeys(d);
    var w :| 0 <= w < |vs| && vs[w] == m;
    assert d.keys[w] in r;
    MaxOfValuesBounds(d);
    forall i | 0 <= i < |d.keys| && (forall k :: k in d.vals ==> d.vals[k] <= d.vals[d.keys[i]])
      ensures d.keys[i] in r
    {
      assert d.vals[d.keys[w]] <= d.vals[d.keys[i]];
    }
  }

  /** `ArgMaxKeys` follows the dict's key order and so repeats no key. */
  lemma ArgMaxKeysOrdered<K>(d: Dict<K, int>)
    requires d.Valid() && d.keys != []
    ensures NoDups(ArgMaxKeys(d))
    ensures forall i, j :: 0 <= i < j < |ArgMaxKeys(d)| ==> IndexOf(d.keys, ArgMaxKeys(d)[i]) < IndexOf(d.keys, ArgMaxKeys(d)[j])
  {
    var r := ArgMaxKeys(d);
    SelectKeysOrder(d.keys, d.vals, MaxOf(d.Values()));
    forall i, j | 0 <= i < j < |r|
      ensures r[i] != r[j]
    {
      assert IndexOf(d.keys, r[i]) < IndexOf(d.keys, r[j]);
    }
  }

  /** The shared tail of both mode computations:
      `maior = max(d.values())`, then `for k, v in d.items(): if v == maior: moda.append(k)`.
      `max` of an empty dict raises `ValueError`. */
  method ArgMaxAll<K(==)>(d: Dict<K, int>) returns (r: Result<seq<K>>)
    requires d.Valid()
    ensures d.keys == [] ==> r == Err(ValueError)
    ensures d.keys != [] ==> r == Ok(ArgMaxKeys(d))
  {
    if |d.keys| == 0 {
      return Err(ValueError);
    }
    var maior := MaxOf(d.Values());
    var moda: seq<K> := [];
    for i := 0 to |d.keys|
      invariant moda == SelectKeys(d.keys[..i], d.vals, maior)
    {
      var item := d.keys[i];
      var freq := d.vals[item];
      ghost var next := d.keys[..i + 1];
      assert next[..i] == d.keys[..i] && next[i] == item;
      assert SelectKeys(next, d.vals, maior) == if freq == maior then moda + [item] else moda;
      if freq == maior {
        moda := moda + [item];
      }
    }
    assert d.keys[..|d.keys|] == d.keys;
    return Ok(moda);
  }
}
