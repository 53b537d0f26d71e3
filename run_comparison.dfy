/**
 * The parameter bookkeeping of benchmark/run_comparison.py: `merge_params`, which turns a
 * dictionary of equally indexed value lists into one parameter dictionary per index with
 * the defaults laid over it, and the identity map of initialisations that `tool_prepare`
 * returns. A Python dictionary is a sequence of (key, value) entries with distinct keys,
 * in the dictionary's iteration order.
 */
module BenchmarkComparison {
  import opened Indices

  /** `dict(zip(ks, vs))`: pairs up to the shorter list, a later pair winning a repeated key. */
  function ZipDict<K(==), V>(ks: seq<K>, vs: seq<V>): map<K, V>
  {
    if |ks| == 0 || |vs| == 0 then map[]
    else
      var n := if |ks| < |vs| then |ks| else |vs|;
      ZipDict(ks[..n - 1], vs[..n - 1])[ks[n - 1] := vs[n - 1]]
  }

  predicate Distinct<K(==)>(ks: seq<K>)
  {
    forall p, q :: 0 <= p < q < |ks| ==> ks[p] != ks[q]
  }

  /** A dictionary of same-index value lists: `params.keys()` with `params.values()`. */
  function ParamKeys<K(==), V>(params: seq<(K, seq<V>)>): seq<K>
  {
    seq(|params|, i requires 0 <= i < |params| => params[i].0)
  }

  /** `defaults.keys()`. */
  function DefaultKeys<K(==), V>(defaults: seq<(K, V)>): seq<K>
  {
    seq(|defaults|, j requires 0 <= j < |defaults| => defaults[j].0)
  }

  /** Number of tuples `zip(*params.values())` yields: the shortest list, and none without lists. */
  function Shortest<K(==), V>(params: seq<(K, seq<V>)>): (r: nat)
    ensures params == [] ==> r == 0
    ensures forall i :: 0 <= i < |params| ==> r <= |params[i].1|
    ensures params != [] ==> exists i :: 0 <= i < |params| && r == |params[i].1|
  {
    if |params| == 0 then 0
    else if |params| == 1 then |params[0].1|
    else
      var rest := Shortest(params[1..]);
      assert forall i :: 1 <= i < |params| ==> params[1..][i - 1] == params[i];
      if |params[0].1| <= rest then |params[0].1| else rest
  }

  /** The idx-th tuple of `zip(*params.values())`. */
  function Column<K(==), V>(params: seq<(K, seq<V>)>, idx: nat): (r: seq<V>)
    requires idx < Shortest(params)
    ensures |r| == |params| && forall i :: 0 <= i < |params| ==> r[i] == params[i].1[idx]
  {
    seq(|params|, i requires 0 <= i < |params| => params[i].1[idx])
  }

  /** `for key, value in defaults.iteritems(): entry[key] = value`. */
  function Overridden<K(==), V>(entry: map<K, V>, defaults: seq<(K, V)>): map<K, V>
  {
    if defaults == [] then entry
    else Overridden(entry, defaults[..|defaults| - 1])[defaults[|defaults| - 1].0 := defaults[|defaults| - 1].1]
  }

  /** The dictionary `merge_params` returns. */
  function Merged<K(==), V>(params: seq<(K, seq<V>)>, defaults: seq<(K, V)>): map<nat, map<K, V>>
  {
    map idx | 0 <= idx < Shortest(params) :: Overridden(ZipDict(ParamKeys(params), Column(params, idx)), defaults)
  }

  /** `merge_params(params, defaults)`. */
  method MergeParams<K(==), V>(params: seq<(K, seq<V>)>, defaults: seq<(K, V)>) returns (merged: map<nat, map<K, V>>)
    ensures merged == Merged(params, defaults)
  {
    merged := map[];
    var keys := ParamKeys(params);
    var count := Shortest(params);
    var idx := 0;
    while idx < count
      invariant 0 <= idx <= count
      invariant forall idx' :: idx' in merged <==> idx' < idx
      invariant forall idx' :: 0 <= idx' < idx ==> merged[idx'] == Overridden(ZipDict(keys, Column(params, idx')), defaults)
    {
      var entry := ZipDict(keys, Column(params, idx));
      entry := OverrideDefaults(entry, defaults);
      merged := merged[idx := entry];
      idx := idx + 1;
    }
    assert idx == count == Shortest(params);
    MergedAll(params, defaults, merged);
  }

  /** The inner loop of `merge_params`: every default written over the entry in turn. */
  method OverrideDefaults<K(==), V>(entry0: map<K, V>, defaults: seq<(K, V)>) returns (entry: map<K, V>)
    ensures entry == Overridden(entry0, defaults)
  {
    entry := entry0;
    var j := 0;
    while j < |defaults|
      invariant 0 <= j <= |defaults|
      invariant entry == Overridden(entry0, defaults[..j])
    {
      assert defaults[..j + 1][..j] == defaults[..j];
      entry := entry[defaults[j].0 := defaults[j].1];
      j := j + 1;
    }
    assert defaults[..j] == defaults;
  }

  /** A map agreeing with `merge_params` on every index of the zip is its result. */
  lemma MergedAll<K, V>(params: seq<(K, seq<V>)>, defaults: seq<(K, V)>, merged: map<nat, map<K, V>>)
    requires forall idx: nat :: idx in merged <==> idx < Shortest(params)
    requires forall idx: nat :: idx < Shortest(params) ==>
      merged[idx] == Overridden(ZipDict(ParamKeys(params), Column(params, idx)), defaults)
    ensures merged == Merged(params, defaults)
  {
  }

  /** `merge_params` has one entry per position of the zip: indices 0..k-1, k the shortest value list. */
  lemma MergedKeys<K, V>(params: seq<(K, seq<V>)>, defaults: seq<(K, V)>)
    ensures forall idx: nat :: idx in Merged(params, defaults) <==> idx < Shortest(params)
    ensures |Merged(params, defaults)| == Shortest(params)
  {
    assert Merged(params, defaults).Keys == IndicesBelow(Shortest(params));
    IndicesBelowCount(Shortest(params));
  }

  /** The index set `{0, ..., n-1}`. */
  function IndicesBelow(n: nat): (r: set<nat>)
    ensures forall idx: nat :: idx in r <==> idx < n
  {
    if n == 0 then {} else IndicesBelow(n - 1) + {n - 1}
  }

  lemma {:induction false} IndicesBelowCount(n: nat)
    ensures |IndicesBelow(n)| == n
  {
    if n > 0 {
      IndicesBelowCount(n - 1);
    }
  }

  /** With distinct keys, `dict(zip(ks, vs))` holds exactly the first keys, each with its paired value. */
  lemma {:induction false} ZipDictAt<K, V>(ks: seq<K>, vs: seq<V>, i: nat)
    requires Distinct(ks) && i < |ks| && i < |vs|
    ensures ks[i] in ZipDict(ks, vs) && ZipDict(ks, vs)[ks[i]] == vs[i]
  {
    var n := if |ks| < |vs| then |ks| else |vs|;
    if i < n - 1 {
      ZipDictAt(ks[..n - 1], vs[..n - 1], i);
    }
  }

  /** Every key of `dict(zip(ks, vs))` is one of the paired keys. */
  lemma {:induction false} ZipDictKeys<K, V>(ks: seq<K>, vs: seq<V>, k: K)
    requires k in ZipDict(ks, vs)
    ensures exists i :: 0 <= i < |ks| && i < |vs| && ks[i] == k
  {
    var n := if |ks| < |vs| then |ks| else |vs|;
    if k != ks[n - 1] {
      ZipDictKeys(ks[..n - 1], vs[..n - 1], k);
    }
  }

  /** After the override loop every default key holds its default value. */
  lemma {:induction false} OverriddenDefault<K, V>(entry: map<K, V>, defaults: seq<(K, V)>, j: nat)
    requires Distinct(DefaultKeys(defaults)) && j < |defaults|
    ensures defaults[j].0 in Overridden(entry, defaults) && Overridden(entry, defaults)[defaults[j].0] == defaults[j].1
  {
    var init := defaults[..|defaults| - 1];
    if j < |defaults| - 1 {
      assert DefaultKeys(init) == DefaultKeys(defaults)[..|defaults| - 1];
      OverriddenDefault(entry, init, j);
      assert DefaultKeys(defaults)[j] != DefaultKeys(defaults)[|defaults| - 1];
    }
  }

  /** A key that is no default keeps its entry, and the override adds no other key. */
  lemma {:induction false} OverriddenOther<K, V>(entry: map<K, V>, defaults: seq<(K, V)>, k: K)
    requires forall j :: 0 <= j < |defaults| ==> defaults[j].0 != k
    ensures k in Overridden(entry, defaults) <==> k in entry
    ensures k in entry ==> Overridden(entry, defaults)[k] == entry[k]
  {
    if defaults != [] {
      OverriddenOther(entry, defaults[..|defaults| - 1], k);
    }
  }

  /** A default key is in the overridden entry. */
  lemma {:induction false} OverriddenDefaultKey<K, V>(entry: map<K, V>, defaults: seq<(K, V)>, k: K)
    requires k in Overridden(entry, defaults)
    ensures k in entry || exists j :: 0 <= j < |defaults| && defaults[j].0 == k
  {
    if defaults != [] && k != defaults[|defaults| - 1].0 {
      OverriddenDefaultKey(entry, defaults[..|defaults| - 1], k);
    }
  }

  /** The entry of `merge_params` at a zipped index. */
  lemma MergedAt<K, V>(params: seq<(K, seq<V>)>, defaults: seq<(K, V)>, idx: nat)
    requires idx < Shortest(params)
    ensures idx in Merged(params, defaults)
    ensures Merged(params, defaults)[idx] == Overridden(ZipDict(ParamKeys(params), Column(params, idx)), defaults)
  {
  }

  /** The zipped value of a key that is no default survives the override. */
  lemma ZippedSurvives<K, V>(keys: seq<K>, values: seq<V>, defaults: seq<(K, V)>, i: nat)
    requires Distinct(keys) && i < |keys| && i < |values| && keys[i] !in DefaultKeys(defaults)
    ensures keys[i] in Overridden(ZipDict(keys, values), defaults)
    ensures Overridden(ZipDict(keys, values), defaults)[keys[i]] == values[i]
  {
    ZipDictAt(keys, values, i);
    forall j | 0 <= j < |defaults|
      ensures defaults[j].0 != keys[i]
    {
      assert DefaultKeys(defaults)[j] == defaults[j].0;
    }
    OverriddenOther(ZipDict(keys, values), defaults, keys[i]);
  }

  /** A parameter key that is no default carries its idx-th value. */
  lemma MergedParamValue<K, V>(params: seq<(K, seq<V>)>, defaults: seq<(K, V)>, idx: nat, i: nat)
    requires Distinct(ParamKeys(params)) && idx < Shortest(params)
    requires i < |params| && params[i].0 !in DefaultKeys(defaults)
    ensures idx in Merged(params, defaults)
    ensures params[i].0 in Merged(params, defaults)[idx] && Merged(params, defaults)[idx][params[i].0] == params[i].1[idx]
  {
    MergedAt(params, defaults, idx);
    ZippedSurvives(ParamKeys(params), Column(params, idx), defaults, i);
  }

  /** Every default key carries its default value, whatever the parameters hold. */
  lemma MergedDefaultValue<K, V>(params: seq<(K, seq<V>)>, defaults: seq<(K, V)>, idx: nat, j: nat)
    requires Distinct(DefaultKeys(defaults)) && idx < Shortest(params) && j < |defaults|
    ensures idx in Merged(params, defaults)
    ensures defaults[j].0 in Merged(params, defaults)[idx] && Merged(params, defaults)[idx][defaults[j].0] == defaults[j].1
  {
    MergedAt(params, defaults, idx);
    OverriddenDefault(ZipDict(ParamKeys(params), Column(params, idx)), defaults, j);
  }

  /** The keys of an entry are the parameter keys and the default keys. */
  lemma MergedEntryKeys<K, V>(params: seq<(K, seq<V>)>, defaults: seq<(K, V)>, idx: nat, k: K)
    requires Distinct(ParamKeys(params)) && Distinct(DefaultKeys(defaults)) && idx < Shortest(params)
    ensures idx in Merged(params, defaults)
    ensures k in Merged(params, defaults)[idx] <==> k in ParamKeys(params) || k in DefaultKeys(defaults)
  {
    var keys := ParamKeys(params);
    var values := Column(params, idx);
    var zipped := ZipDict(keys, values);
    var entry := Overridden(zipped, defaults);
    assert |keys| == |values| == |params|;
    MergedAt(params, defaults, idx);
    assert Merged(params, defaults)[idx] == entry;
    if k in entry {
      OverriddenDefaultKey(zipped, defaults, k);
      if k in zipped {
        ZipDictKeys(keys, values, k);
      } else {
        var j :| 0 <= j < |defaults| && defaults[j].0 == k;
        assert DefaultKeys(defaults)[j] == k;
      }
    }
    if k in keys && k !in DefaultKeys(defaults) {
      var i :| 0 <= i < |keys| && keys[i] == k;
      assert params[i].0 == k;
      MergedParamValue(params, defaults, idx, i);
    }
    if k in DefaultKeys(defaults) {
      var j :| 0 <= j < |defaults| && DefaultKeys(defaults)[j] == k;
      MergedDefaultValue(params, defaults, idx, j);
    }
    assert k in entry <==> k in keys || k in DefaultKeys(defaults);
  }

  /** The map `tool_prepare` returns: `dict(zip(xrange(num_inits), xrange(num_inits)))`. */
  function IdentityInitMap(numInits: nat): map<nat, nat>
  {
    ZipDict(Range(numInits), Range(numInits))
  }

  /** Every initialisation index below `num_inits` maps to itself, and there are no other keys. */
  lemma IdentityInitMapSpec(numInits: nat, k: nat)
    ensures k in IdentityInitMap(numInits) <==> k < numInits
    ensures k < numInits ==> IdentityInitMap(numInits)[k] == k
  {
    var r := Range(numInits);
    assert Distinct(r);
    if k < numInits {
      ZipDictAt(r, r, k);
    }
    if k in IdentityInitMap(numInits) {
      ZipDictKeys(r, r, k);
    }
  }
}
