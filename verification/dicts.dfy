/** Python's insertion-ordered `dict`: a map together with the order in which
    its keys were first inserted. Overwriting a key keeps its position. */
module Dicts {
  import opened Seqs

  datatype Dict<K, V> = Dict(keys: seq<K>, entries: map<K, V>)

  /** The keys are listed once each, and exactly the mapped keys are listed. */
  predicate Valid<K, V>(d: Dict<K, V>) {
    Distinct(d.keys) && d.entries.Keys == set k | k in d.keys
  }

  function Empty<K, V>(): (d: Dict<K, V>)
    ensures Valid(d) && d.keys == [] && d.entries == map[]
  {
    Dict([], map[])
  }

  /** `d[k] = v`: a new key goes to the end, an existing key keeps its place. */
  function Put<K, V>(d: Dict<K, V>, k: K, v: V): (r: Dict<K, V>)
    requires Valid(d)
    ensures Valid(r)
    ensures r.entries == d.entries[k := v]
    ensures k in d.entries ==> r.keys == d.keys
    ensures k !in d.entries ==> r.keys == d.keys + [k]
  {
    if k in d.entries then Dict(d.keys, d.entries[k := v])
    else Dict(d.keys + [k], d.entries[k := v])
  }

  /** `d.get(k, default)`. */
  function GetOr<K, V>(d: Dict<K, V>, k: K, default: V): V {
    if k in d.entries then d.entries[k] else default
  }

  /** `list(d.values())`: the values in key order. */
  function Values<K, V>(d: Dict<K, V>): (vs: seq<V>)
    requires Valid(d)
    ensures |vs| == |d.keys|
    ensures forall i :: 0 <= i < |vs| ==> vs[i] == d.entries[d.keys[i]]
  {
    seq(|d.keys|, i requires 0 <= i < |d.keys| => d.entries[d.keys[i]])
  }

  /** All but the most recently inserted key. */
  function DropLast<K, V>(e: Dict<K, V>): (front: Dict<K, V>)
    requires Valid(e) && e.keys != []
    ensures Valid(front)
    ensures front.keys == e.keys[..|e.keys| - 1]
    ensures e.entries == front.entries[e.keys[|e.keys| - 1] := e.entries[e.keys[|e.keys| - 1]]]
  {
    var n := |e.keys| - 1;
    var k := e.keys[n];
    assert e.keys == e.keys[..n] + [k];
    Dict(e.keys[..n], e.entries - {k})
  }

  /** `d.update(e)`: every entry of `e` is put into `d`, in `e`'s key order. */
  function Update<K, V>(d: Dict<K, V>, e: Dict<K, V>): (r: Dict<K, V>)
    requires Valid(d) && Valid(e)
    ensures Valid(r)
    ensures r.entries == d.entries + e.entries
    ensures |d.keys| <= |r.keys| && r.keys[..|d.keys|] == d.keys
    decreases |e.keys|
  {
    if e.keys == [] then
      assert e.entries == map[];
      d
    else
      var k := e.keys[|e.keys| - 1];
      var front := DropLast(e);
      var u := Update(d, front);
      var r := Put(u, k, e.entries[k]);
      UnionUpdate(d.entries, front.entries, k, e.entries[k]);
      assert r.keys[..|d.keys|] == u.keys[..|d.keys|];
      r
  }

  /** Putting after a union is putting into its right operand. */
  lemma UnionUpdate<K, V>(a: map<K, V>, b: map<K, V>, k: K, v: V)
    ensures (a + b)[k := v] == a + b[k := v]
  {
  }

  /** Putting a new key appends its value to `list(d.values())`. */
  lemma ValuesPutNew<K, V>(d: Dict<K, V>, k: K, v: V)
    requires Valid(d) && k !in d.entries
    ensures Values(Put(d, k, v)) == Values(d) + [v]
  {
    var r := Put(d, k, v);
    forall i | 0 <= i < |d.keys|
      ensures Values(r)[i] == Values(d)[i]
    {
      assert d.keys[i] in d.entries;
    }
  }

  /** Overwriting a key replaces its value in place. */
  lemma ValuesPutExisting<K, V>(d: Dict<K, V>, k: K, v: V)
    requires Valid(d) && k in d.entries
    ensures k in d.keys
    ensures Values(Put(d, k, v)) == Values(d)[Find(d.keys, k) := v]
  {
    assert k in d.keys;
    var j := Find(d.keys, k);
    var r := Put(d, k, v);
    forall i | 0 <= i < |d.keys| && i != j
      ensures Values(r)[i] == Values(d)[i]
    {
      assert d.keys[i] != d.keys[j];
    }
  }

  predicate AllValid<K, V>(ds: seq<Dict<K, V>>) {
    forall i :: 0 <= i < |ds| ==> Valid(ds[i])
  }

  /** Starting from `{}`, `update` with each dict of `ds` in turn. */
  function UpdateAll<K, V>(ds: seq<Dict<K, V>>): (r: Dict<K, V>)
    requires AllValid(ds)
    ensures Valid(r)
    decreases |ds|
  {
    if ds == [] then Empty() else Update(UpdateAll(ds[..|ds| - 1]), ds[|ds| - 1])
  }

  /** A key takes its value from the last dict that holds it. */
  lemma {:induction false} UpdateAllLastWins<K, V>(ds: seq<Dict<K, V>>, k: K, j: nat)
    requires AllValid(ds) && j < |ds| && k in ds[j].entries
    requires forall i :: j < i < |ds| ==> k !in ds[i].entries
    ensures k in UpdateAll(ds).entries && UpdateAll(ds).entries[k] == ds[j].entries[k]
    decreases |ds|
  {
    var n := |ds| - 1;
    var front := ds[..n];
    assert UpdateAll(ds).entries == UpdateAll(front).entries + ds[n].entries;
    if j < n {
      assert front[j] == ds[j];
      forall i | j < i < |front|
        ensures k !in front[i].entries
      {
        assert front[i] == ds[i];
      }
      UpdateAllLastWins(front, k, j);
      assert k !in ds[n].entries;
    }
  }

  /** Every key of the result comes from the last dict that holds it. */
  lemma {:induction false} UpdateAllSource<K, V>(ds: seq<Dict<K, V>>, k: K) returns (j: nat)
    requires AllValid(ds) && k in UpdateAll(ds).entries
    ensures j < |ds| && k in ds[j].entries
    ensures forall i :: j < i < |ds| ==> k !in ds[i].entries
    ensures UpdateAll(ds).entries[k] == ds[j].entries[k]
    decreases |ds|
  {
    var n := |ds| - 1;
    if k in ds[n].entries {
      j := n;
    } else {
      var front := ds[..n];
      j := UpdateAllSource(front, k);
      assert front[j] == ds[j];
      forall i | j < i < |ds|
        ensures k !in ds[i].entries
      {
        if i < n {
          assert front[i] == ds[i];
        }
      }
    }
  }

  /** A key no dict holds is not in the result. */
  lemma {:induction false} UpdateAllUnlisted<K, V>(ds: seq<Dict<K, V>>, k: K)
    requires AllValid(ds)
    requires forall i :: 0 <= i < |ds| ==> k !in ds[i].entries
    ensures k !in UpdateAll(ds).entries
    decreases |ds|
  {
    if ds != [] {
      var front := ds[..|ds| - 1];
      forall i | 0 <= i < |front|
        ensures k !in front[i].entries
      {
        assert front[i] == ds[i];
      }
      UpdateAllUnlisted(front, k);
    }
  }
}
