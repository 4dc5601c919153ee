/** Grouping a list of key/value pairs into a dictionary of lists, the
    idiom `if k in d: d[k] += [v] else: d[k] = [v]` that both tactic trees
    use for their tactic invocations and their per-depth views. A Python
    dictionary remembers the order its keys were first inserted; `KeyOrder`
    is that order. */
module Groups {

  /** The dictionary after inserting every pair in turn. */
  function GroupPairs<K(==), V>(ps: seq<(K, V)>): map<K, seq<V>> {
    if ps == [] then map[]
    else
      var m := GroupPairs(ps[..|ps| - 1]);
      var (k, v) := ps[|ps| - 1];
      if k in m then m[k := m[k] + [v]] else m[k := [v]]
  }

  /** The values paired with `k`, in list order. */
  function Values<K(==), V>(ps: seq<(K, V)>, k: K): seq<V> {
    if ps == [] then []
    else Values(ps[..|ps| - 1], k) + (if ps[|ps| - 1].0 == k then [ps[|ps| - 1].1] else [])
  }

  /** The keys in the order they first occur. */
  function KeyOrder<K(==), V>(ps: seq<(K, V)>): seq<K> {
    if ps == [] then []
    else
      var ks := KeyOrder(ps[..|ps| - 1]);
      if ps[|ps| - 1].0 in ks then ks else ks + [ps[|ps| - 1].0]
  }

  predicate Distinct<K(==)>(ks: seq<K>) {
    forall i, j :: 0 <= i < j < |ks| ==> ks[i] != ks[j]
  }

  /** The dictionary has a key for each key that occurs, and its insertion
      order lists each of them once. */
  lemma {:induction false} GroupKeys<K, V>(ps: seq<(K, V)>)
    ensures forall k :: k in GroupPairs(ps) <==> k in KeyOrder(ps)
    ensures forall k :: k in KeyOrder(ps) <==> exists i :: 0 <= i < |ps| && ps[i].0 == k
    ensures Distinct(KeyOrder(ps))
    decreases |ps|, 0
  {
    if ps != [] {
      var pre := ps[..|ps| - 1];
      GroupKeys(pre);
      forall k | exists i :: 0 <= i < |ps| && ps[i].0 == k
        ensures k in KeyOrder(ps)
      {
        var i :| 0 <= i < |ps| && ps[i].0 == k;
        if i < |pre| {
          assert pre[i].0 == k;
        }
      }
      forall k | k in KeyOrder(ps)
        ensures exists i :: 0 <= i < |ps| && ps[i].0 == k
      {
        if k in KeyOrder(pre) {
          KeyOccurs(pre, k);
          var i :| 0 <= i < |pre| && pre[i].0 == k;
          assert ps[i].0 == k;
        } else {
          assert ps[|ps| - 1].0 == k;
        }
      }
    }
  }

  lemma KeyOccurs<K, V>(ps: seq<(K, V)>, k: K)
    requires k in KeyOrder(ps)
    ensures exists i :: 0 <= i < |ps| && ps[i].0 == k
    decreases |ps|, 1
  {
    GroupKeys(ps);
  }

  lemma {:induction false} ValuesAbsent<K, V>(ps: seq<(K, V)>, k: K)
    requires k !in GroupPairs(ps)
    ensures Values(ps, k) == []
  {
    if ps != [] {
      ValuesAbsent(ps[..|ps| - 1], k);
    }
  }

  /** Each list holds the values of its key in list order, and none is
      empty. */
  lemma {:induction false} GroupValues<K, V>(ps: seq<(K, V)>)
    ensures forall k :: k in GroupPairs(ps) ==> GroupPairs(ps)[k] == Values(ps, k) && GroupPairs(ps)[k] != []
  {
    if ps != [] {
      var pre := ps[..|ps| - 1];
      GroupValues(pre);
      if ps[|ps| - 1].0 !in GroupPairs(pre) {
        ValuesAbsent(pre, ps[|ps| - 1].0);
      }
    }
  }

  /** The values of `k` are the values of the pairs with key `k`. */
  lemma {:induction false} ValuesSpec<K, V>(ps: seq<(K, V)>, k: K)
    ensures forall v :: v in Values(ps, k) <==> (k, v) in ps
  {
    if ps != [] {
      ValuesSpec(ps[..|ps| - 1], k);
      assert ps == ps[..|ps| - 1] + [ps[|ps| - 1]];
    }
  }

  /** The lengths of the lists under `ks`. */
  function SumLens<K(==), V>(m: map<K, seq<V>>, ks: seq<K>): nat
    requires forall i :: 0 <= i < |ks| ==> ks[i] in m
  {
    if ks == [] then 0 else SumLens(m, ks[..|ks| - 1]) + |m[ks[|ks| - 1]]|
  }

  lemma {:induction false} SumLensSame<K, V>(m: map<K, seq<V>>, m2: map<K, seq<V>>, ks: seq<K>)
    requires forall i :: 0 <= i < |ks| ==> ks[i] in m && ks[i] in m2 && m[ks[i]] == m2[ks[i]]
    ensures SumLens(m, ks) == SumLens(m2, ks)
  {
    if ks != [] {
      SumLensSame(m, m2, ks[..|ks| - 1]);
    }
  }

  lemma {:induction false} SumLensBump<K, V>(m: map<K, seq<V>>, ks: seq<K>, k: K, v: V)
    requires forall i :: 0 <= i < |ks| ==> ks[i] in m
    requires Distinct(ks) && k in ks
    ensures SumLens(m[k := m[k] + [v]], ks) == SumLens(m, ks) + 1
  {
    var m2 := m[k := m[k] + [v]];
    var pre := ks[..|ks| - 1];
    if ks[|ks| - 1] == k {
      assert k !in pre;
      SumLensSame(m, m2, pre);
    } else {
      assert k in pre;
      SumLensBump(m, pre, k, v);
    }
  }

  /** Together the lists hold every value exactly once: their lengths add
      up to the number of pairs. */
  lemma {:induction false} GroupCovers<K, V>(ps: seq<(K, V)>)
    ensures forall i :: 0 <= i < |KeyOrder(ps)| ==> KeyOrder(ps)[i] in GroupPairs(ps)
    ensures SumLens(GroupPairs(ps), KeyOrder(ps)) == |ps|
  {
    GroupKeys(ps);
    if ps != [] {
      var pre := ps[..|ps| - 1];
      var (k, v) := ps[|ps| - 1];
      var m := GroupPairs(pre);
      var ks := KeyOrder(pre);
      GroupCovers(pre);
      GroupKeys(pre);
      if k in ks {
        SumLensBump(m, ks, k, v);
      } else {
        SumLensSame(m, m[k := [v]], ks);
      }
    }
  }

  /** The loop that fills the dictionary, keeping its insertion order. */
  method Group<K(==), V>(ps: seq<(K, V)>) returns (m: map<K, seq<V>>, order: seq<K>)
    ensures m == GroupPairs(ps) && order == KeyOrder(ps)
  {
    m, order := map[], [];
    GroupKeys(ps[..0]);
    var i := 0;
    while i < |ps|
      invariant 0 <= i <= |ps|
      invariant m == GroupPairs(ps[..i]) && order == KeyOrder(ps[..i])
    {
      assert ps[..i + 1][..i] == ps[..i];
      GroupKeys(ps[..i]);
      var (k, v) := ps[i];
      if k in m {
        m := m[k := m[k] + [v]];
      } else {
        m := m[k := [v]];
        order := order + [k];
      }
      i := i + 1;
    }
    assert ps[..i] == ps;
  }
}
