/** Ordered association lists: the insertion-ordered dictionaries, header
    lists, XML attribute dictionaries and query/form multi-dicts of the
    modelled code are all sequences of (key, value) pairs. */
module Assoc {
  import opened Wrappers

  /** Some entry has this key (Python's `key in d`). */
  predicate HasKey<K(==), V>(pairs: seq<(K, V)>, key: K) {
    exists i :: 0 <= i < |pairs| && pairs[i].0 == key
  }

  /** The value of the first entry with this key (`d.get(key)`), or None. */
  function Lookup<K(==), V(==)>(pairs: seq<(K, V)>, key: K): (r: Option<V>)
    ensures r.Some? <==> HasKey(pairs, key)
    ensures r.Some? ==> exists i :: 0 <= i < |pairs| && pairs[i] == (key, r.value)
                                   && forall j :: 0 <= j < i ==> pairs[j].0 != key
  {
    if |pairs| == 0 then None
    else if pairs[0].0 == key then Some(pairs[0].1)
    else
      var r := Lookup(pairs[1..], key);
      assert HasKey(pairs[1..], key) ==> HasKey(pairs, key) by {
        if HasKey(pairs[1..], key) {
          var i :| 0 <= i < |pairs[1..]| && pairs[1..][i].0 == key;
          assert pairs[i + 1].0 == key;
        }
      }
      assert r.Some? ==> exists i :: 0 <= i < |pairs| && pairs[i] == (key, r.value)
                                    && forall j :: 0 <= j < i ==> pairs[j].0 != key by {
        if r.Some? {
          var i :| 0 <= i < |pairs[1..]| && pairs[1..][i] == (key, r.value)
                   && forall j :: 0 <= j < i ==> pairs[1..][j].0 != key;
          assert pairs[i + 1] == (key, r.value);
          assert forall j :: 0 <= j < i + 1 ==> pairs[j].0 != key by {
            forall j | 0 <= j < i + 1 ensures pairs[j].0 != key {
              if j > 0 { assert pairs[j] == pairs[1..][j - 1]; }
            }
          }
        }
      }
      r
  }

  /** The keys, in order (`list(d.keys())`). */
  function Keys<K, V>(pairs: seq<(K, V)>): (ks: seq<K>)
    ensures |ks| == |pairs|
    ensures forall i :: 0 <= i < |pairs| ==> ks[i] == pairs[i].0
  {
    if |pairs| == 0 then [] else [pairs[0].0] + Keys(pairs[1..])
  }

  /** No key occurs twice, as in any Python dictionary. */
  predicate DistinctKeys<K(==), V>(pairs: seq<(K, V)>) {
    forall i, j :: 0 <= i < j < |pairs| ==> pairs[i].0 != pairs[j].0
  }

  /** With distinct keys, the first match is the only match: looking up the
      key of any entry yields that entry's value. */
  lemma LookupDistinct<K, V>(pairs: seq<(K, V)>, i: nat)
    requires DistinctKeys(pairs) && i < |pairs|
    ensures Lookup(pairs, pairs[i].0) == Some(pairs[i].1)
  {
    var r := Lookup(pairs, pairs[i].0);
    var k :| 0 <= k < |pairs| && pairs[k] == (pairs[i].0, r.value)
             && forall j :: 0 <= j < k ==> pairs[j].0 != pairs[i].0;
    assert k == i;
  }

  /** The pairs with every entry for `key` dropped. */
  function Without<K(==,!new), V(==)>(pairs: seq<(K, V)>, key: K): (r: seq<(K, V)>)
    ensures |r| <= |pairs|
    ensures forall k :: Lookup(r, k) == if k == key then None else Lookup(pairs, k)
  {
    if |pairs| == 0 then []
    else
      var rest := Without(pairs[1..], key);
      if pairs[0].0 == key then rest else [pairs[0]] + rest
  }

  /** The index of the first entry with this key, or the length when no
      entry has it. */
  function IndexOf<K(==), V>(pairs: seq<(K, V)>, key: K): (i: nat)
    ensures i <= |pairs|
    ensures i < |pairs| ==> pairs[i].0 == key
    ensures forall j :: 0 <= j < i ==> pairs[j].0 != key
  {
    if |pairs| == 0 || pairs[0].0 == key then 0
    else
      var i := IndexOf(pairs[1..], key);
      assert forall j :: 0 < j < i + 1 ==> pairs[j] == pairs[1..][j - 1];
      1 + i
  }

  /** Dropping the entries of one key keeps the others in their order of
      first appearance. */
  lemma {:induction false} WithoutIndex<K(!new), V>(pairs: seq<(K, V)>, key: K, k1: K, k2: K)
    requires k1 != key && k2 != key
    requires IndexOf(Without(pairs, key), k1) < IndexOf(Without(pairs, key), k2)
    ensures IndexOf(pairs, k1) < IndexOf(pairs, k2)
    decreases |pairs|
  {
    if |pairs| > 0 {
      var w := Without(pairs, key);
      var w' := Without(pairs[1..], key);
      if pairs[0].0 == key {
        WithoutIndex(pairs[1..], key, k1, k2);
      } else if pairs[0].0 != k1 {
        assert w == [pairs[0]] + w' && w[1..] == w';
        WithoutIndex(pairs[1..], key, k1, k2);
      }
    }
  }

  /** Dropping a key that no entry has changes nothing. */
  lemma {:induction false} WithoutAbsent<K(!new), V>(pairs: seq<(K, V)>, key: K)
    requires forall i :: 0 <= i < |pairs| ==> pairs[i].0 != key
    ensures Without(pairs, key) == pairs
    decreases |pairs|
  {
    if |pairs| > 0 {
      WithoutAbsent(pairs[1..], key);
      assert pairs == [pairs[0]] + pairs[1..];
    }
  }

  /** The keys of `r` appear in the order in which they first appear in
      `pairs`. */
  predicate InFirstOrder<K(==), V, W>(r: seq<(K, V)>, pairs: seq<(K, W)>) {
    forall i, j :: 0 <= i < j < |r| ==> IndexOf(pairs, r[i].0) < IndexOf(pairs, r[j].0)
  }

  /** The first value of each key, the keys in the order they first appear:
      the pairs a werkzeug MultiDict's `items()` yields, and what
      `json.dumps` writes for one.  The result is a dictionary with the
      same lookups as the multi-dict, and a list that already has distinct
      keys is its own result. */
  function FirstValues<K(==,!new), V(==)>(pairs: seq<(K, V)>): (r: seq<(K, V)>)
    ensures DistinctKeys(r)
    ensures forall k :: Lookup(r, k) == Lookup(pairs, k)
    ensures InFirstOrder(r, pairs)
    ensures DistinctKeys(pairs) ==> r == pairs
    decreases |pairs|
  {
    if |pairs| == 0 then []
    else
      var rest := FirstValues(Without(pairs[1..], pairs[0].0));
      FirstValuesStep(pairs, rest);
      [pairs[0]] + rest
  }

  /** One step of `FirstValues`: the head entry followed by the first
      values of the rest, with the head's key dropped from the rest. */
  lemma FirstValuesStep<K(!new), V>(pairs: seq<(K, V)>, rest: seq<(K, V)>)
    requires |pairs| > 0
    requires DistinctKeys(rest)
    requires forall k :: Lookup(rest, k) == Lookup(Without(pairs[1..], pairs[0].0), k)
    requires InFirstOrder(rest, Without(pairs[1..], pairs[0].0))
    requires DistinctKeys(Without(pairs[1..], pairs[0].0)) ==> rest == Without(pairs[1..], pairs[0].0)
    ensures DistinctKeys([pairs[0]] + rest)
    ensures forall k :: Lookup([pairs[0]] + rest, k) == Lookup(pairs, k)
    ensures InFirstOrder([pairs[0]] + rest, pairs)
    ensures DistinctKeys(pairs) ==> [pairs[0]] + rest == pairs
  {
    var key := pairs[0].0;
    var r := [pairs[0]] + rest;
    assert Lookup(rest, key).None?;
    assert !HasKey(rest, key);
    DistinctCons(pairs[0], rest);
    forall k ensures Lookup(r, k) == Lookup(pairs, k) {
      if k != key {
        assert r[1..] == rest;
      }
    }
    FirstValuesOrder(pairs, rest);
    if DistinctKeys(pairs) {
      DistinctTail(pairs);
      WithoutAbsent(pairs[1..], key);
      assert pairs == [pairs[0]] + pairs[1..];
    }
  }

  /** An entry whose key the list lacks keeps the keys distinct. */
  lemma DistinctCons<K, V>(p: (K, V), rest: seq<(K, V)>)
    requires DistinctKeys(rest)
    requires forall i :: 0 <= i < |rest| ==> rest[i].0 != p.0
    ensures DistinctKeys([p] + rest)
  {
    var r := [p] + rest;
    forall i, j | 0 <= i < j < |r| ensures r[i].0 != r[j].0 {
      assert r[j] == rest[j - 1];
      if i > 0 { assert r[i] == rest[i - 1]; }
    }
  }

  /** The tail of a list with distinct keys has distinct keys and lacks
      the head's key. */
  lemma DistinctTail<K, V>(pairs: seq<(K, V)>)
    requires |pairs| > 0 && DistinctKeys(pairs)
    ensures DistinctKeys(pairs[1..])
    ensures forall i :: 0 <= i < |pairs[1..]| ==> pairs[1..][i].0 != pairs[0].0
  {
    forall i | 0 <= i < |pairs[1..]| ensures pairs[1..][i].0 != pairs[0].0 {
      assert pairs[1..][i] == pairs[i + 1];
    }
  }

  /** The head entry, followed by keys other than the head's that are in
      order of first appearance once the head's key is dropped from the
      tail, lists the keys in order of first appearance. */
  lemma FirstValuesOrder<K(!new), V>(pairs: seq<(K, V)>, rest: seq<(K, V)>)
    requires |pairs| > 0
    requires forall i :: 0 <= i < |rest| ==> rest[i].0 != pairs[0].0
    requires InFirstOrder(rest, Without(pairs[1..], pairs[0].0))
    ensures InFirstOrder([pairs[0]] + rest, pairs)
  {
    var key := pairs[0].0;
    var r := [pairs[0]] + rest;
    forall i, j | 0 <= i < j < |r| ensures IndexOf(pairs, r[i].0) < IndexOf(pairs, r[j].0) {
      assert r[j] == rest[j - 1];
      if i > 0 {
        assert r[i] == rest[i - 1];
        WithoutIndex(pairs[1..], key, rest[i - 1].0, rest[j - 1].0);
      }
    }
  }
}
