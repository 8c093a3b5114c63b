/** A Python `dict`: a map together with the order in which its keys were
    first inserted. Assigning to an existing key keeps its position. */
module PyDict {
  import opened Wrappers
  import opened Seqs

  datatype Dict<K(==), V> = Dict(keys: seq<K>, values: map<K, V>) {
    /** Every key once, and exactly the keys of the map. */
    predicate Valid() {
      && NoDuplicates(keys)
      && values.Keys == set i | 0 <= i < |keys| :: keys[i]
    }
  }

  function Empty<K(==), V>(): (d: Dict<K, V>)
    ensures d.Valid() && d.keys == [] && d.values == map[]
  {
    Dict([], map[])
  }

  /** `d[k] = v`. */
  function Put<K(==), V>(d: Dict<K, V>, k: K, v: V): (r: Dict<K, V>)
    requires d.Valid()
    ensures r.Valid()
    ensures r.values == d.values[k := v]
    ensures k in d.values ==> r.keys == d.keys
    ensures k !in d.values ==> r.keys == d.keys + [k]
  {
    if k in d.values then
      Dict(d.keys, d.values[k := v])
    else
      var r := Dict(d.keys + [k], d.values[k := v]);
      assert forall i :: 0 <= i < |d.keys| ==> d.keys[i] in d.values;
      assert r.values.Keys == set i | 0 <= i < |r.keys| :: r.keys[i] by {
        forall x | x in r.values.Keys
          ensures x in set i | 0 <= i < |r.keys| :: r.keys[i]
        {
          if x == k {
            assert r.keys[|d.keys|] == k;
          } else {
            var i :| 0 <= i < |d.keys| && d.keys[i] == x;
            assert r.keys[i] == x;
          }
        }
      }
      r
  }

  /** `d.get(k)`. */
  function Get<K(==), V>(d: Dict<K, V>, k: K): (r: Option<V>)
    ensures r.Some? <==> k in d.values
    ensures r.Some? ==> r.value == d.values[k]
  {
    if k in d.values then Some(d.values[k]) else None
  }

  /** `list(d.items())`: the pairs in key order. */
  function Items<K(==), V>(d: Dict<K, V>): (r: seq<(K, V)>)
    requires d.Valid()
    ensures |r| == |d.keys|
    ensures forall i :: 0 <= i < |r| ==> r[i].0 == d.keys[i] && r[i].0 in d.values && r[i].1 == d.values[r[i].0]
  {
    assert forall i :: 0 <= i < |d.keys| ==> d.keys[i] in d.values;
    seq(|d.keys|, i requires 0 <= i < |d.keys| => (d.keys[i], d.values[d.keys[i]]))
  }

  /** The row at index `i` is the last row that `keep` accepts and that has
      key `k`. */
  ghost predicate LastKeptWithKey<R, K>(rows: seq<R>, key: R -> K, keep: R -> bool, k: K, i: int) {
    && 0 <= i < |rows| && keep(rows[i]) && key(rows[i]) == k
    && forall j :: i < j < |rows| && keep(rows[j]) ==> key(rows[j]) != k
  }

  /** `{key(r): val(r) for r in rows if keep(r)}`. */
  function Collect<R, K(==), V>(rows: seq<R>, key: R -> K, val: R -> V, keep: R -> bool): (d: Dict<K, V>)
    ensures d.Valid()
    ensures forall i :: 0 <= i < |rows| && keep(rows[i]) ==> key(rows[i]) in d.values
  {
    if rows == [] then Empty()
    else
      var d' := Collect(rows[..|rows| - 1], key, val, keep);
      var last := rows[|rows| - 1];
      if keep(last) then Put(d', key(last), val(last)) else d'
  }

  /** Every key of a comprehension comes from a kept row, and its value is
      the one of the last kept row with that key: later rows overwrite. */
  lemma {:induction false} CollectLastWins<R, K, V>(rows: seq<R>, key: R -> K, val: R -> V, keep: R -> bool, k: K)
    requires k in Collect(rows, key, val, keep).values
    ensures exists i :: LastKeptWithKey(rows, key, keep, k, i) && Collect(rows, key, val, keep).values[k] == val(rows[i])
  {
    var rows' := rows[..|rows| - 1];
    var last := rows[|rows| - 1];
    var d' := Collect(rows', key, val, keep);
    if keep(last) && k == key(last) {
      assert LastKeptWithKey(rows, key, keep, k, |rows| - 1);
    } else {
      assert k in d'.values;
      CollectLastWins(rows', key, val, keep, k);
      var i :| LastKeptWithKey(rows', key, keep, k, i) && d'.values[k] == val(rows'[i]);
      assert LastKeptWithKey(rows, key, keep, k, i);
    }
  }

  /** The keys of a comprehension are the keys of the kept rows, each once,
      in the order in which they first appear. */
  lemma {:induction false} CollectKeyOrder<R, K, V>(rows: seq<R>, key: R -> K, val: R -> V, keep: R -> bool)
    ensures Collect(rows, key, val, keep).keys == Distinct(KeysOf(Filter(rows, keep), key))
  {
    if rows != [] {
      var rows' := rows[..|rows| - 1];
      var last := rows[|rows| - 1];
      CollectKeyOrder(rows', key, val, keep);
      var f' := Filter(rows', keep);
      var d' := Collect(rows', key, val, keep);
      if keep(last) {
        assert Filter(rows, keep) == f' + [last];
        KeysOfSnoc(f', last, key);
        DistinctSnoc(KeysOf(f', key), key(last));
        KeyMember(d', key(last));
      } else {
        assert Filter(rows, keep) == f';
      }
    }
  }

  lemma KeysOfSnoc<R, K>(rows: seq<R>, r: R, key: R -> K)
    ensures KeysOf(rows + [r], key) == KeysOf(rows, key) + [key(r)]
  {
  }

  /** A key is in the map exactly when it is in the key order. */
  lemma KeyMember<K, V>(d: Dict<K, V>, k: K)
    requires d.Valid()
    ensures k in d.values <==> k in d.keys
  {
    if k in d.values {
      var i :| 0 <= i < |d.keys| && d.keys[i] == k;
    }
    if k in d.keys {
      var i :| 0 <= i < |d.keys| && d.keys[i] == k;
      assert k in set j | 0 <= j < |d.keys| :: d.keys[j];
    }
  }

  /** `[key(r) for r in rows]`. */
  function KeysOf<R, K>(rows: seq<R>, key: R -> K): (r: seq<K>)
    ensures |r| == |rows|
    ensures forall i :: 0 <= i < |rows| ==> r[i] == key(rows[i])
  {
    seq(|rows|, i requires 0 <= i < |rows| => key(rows[i]))
  }
}
