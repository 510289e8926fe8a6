/**
 * Ruby's Hash with string keys, as an insertion-ordered list of key/value
 * pairs. `Store` is `h[k] = v` (an existing key keeps its position),
 * `FromPairs` is `Hash[pairs]` and also the `each_with_object({})`
 * accumulation.
 */
module RubyHash {
  import opened Wrappers

  type Hash<V> = seq<(string, V)>

  predicate DistinctKeys<V>(h: Hash<V>) {
    forall i, j :: 0 <= i < j < |h| ==> h[i].0 != h[j].0
  }

  /** `h[k]`: the value stored under `k`, or nil. */
  function Lookup<V>(h: Hash<V>, k: string): Option<V> {
    if h == [] then None
    else if h[0].0 == k then Some(h[0].1)
    else Lookup(h[1..], k)
  }

  /** A key is absent exactly when no pair carries it. */
  lemma {:induction false} LookupAbsent<V>(h: Hash<V>, k: string)
    ensures Lookup(h, k) == None <==> forall i :: 0 <= i < |h| ==> h[i].0 != k
  {
    if h != [] {
      LookupAbsent(h[1..], k);
      assert forall i :: 1 <= i < |h| ==> h[i] == h[1..][i - 1];
    }
  }

  /** `h[k] = v`: afterwards `k` maps to `v` and every other key is as before. */
  function Store<V>(h: Hash<V>, k: string, v: V): (r: Hash<V>)
    ensures Lookup(r, k) == Some(v)
    ensures forall k' :: k' != k ==> Lookup(r, k') == Lookup(h, k')
    ensures |h| <= |r| <= |h| + 1
  {
    if h == [] then [(k, v)]
    else if h[0].0 == k then [(k, v)] + h[1..]
    else [h[0]] + Store(h[1..], k, v)
  }

  /** A new key goes to the end; nothing else moves. */
  lemma {:induction false} StoreNewKey<V>(h: Hash<V>, k: string, v: V)
    requires Lookup(h, k) == None
    ensures Store(h, k, v) == h + [(k, v)]
  {
    if h != [] {
      StoreNewKey(h[1..], k, v);
      assert [h[0]] + (h[1..] + [(k, v)]) == h + [(k, v)];
    }
  }

  /** Storing keeps the keys distinct. */
  lemma {:induction false} StoreDistinct<V>(h: Hash<V>, k: string, v: V)
    requires DistinctKeys(h)
    ensures DistinctKeys(Store(h, k, v))
  {
    var r := Store(h, k, v);
    if h != [] && h[0].0 != k {
      StoreDistinct(h[1..], k, v);
      var rest := Store(h[1..], k, v);
      assert Lookup(rest, h[0].0) == None by {
        LookupAbsent(h[1..], h[0].0);
      }
      LookupAbsent(rest, h[0].0);
      forall i, j | 0 <= i < j < |r| ensures r[i].0 != r[j].0 {
        if i == 0 {
          assert r[j] == rest[j - 1];
        } else {
          assert r[i] == rest[i - 1] && r[j] == rest[j - 1];
        }
      }
    }
  }

  /** `Hash[pairs]`: the pairs stored one after another, from the first to the last. */
  function FromPairs<V>(ps: seq<(string, V)>): (r: Hash<V>)
    ensures |r| <= |ps|
    ensures r == [] <==> ps == []
  {
    if ps == [] then []
    else Store(FromPairs(ps[..|ps| - 1]), ps[|ps| - 1].0, ps[|ps| - 1].1)
  }

  /** The value of the last pair with key `k`, if any. */
  function LastValue<V>(ps: seq<(string, V)>, k: string): Option<V> {
    if ps == [] then None
    else if ps[|ps| - 1].0 == k then Some(ps[|ps| - 1].1)
    else LastValue(ps[..|ps| - 1], k)
  }

  /** Pair `i` carries key `k` and no later pair does. */
  predicate IsLastWithKey<V>(ps: seq<(string, V)>, k: string, i: int) {
    0 <= i < |ps| && ps[i].0 == k && forall j :: i < j < |ps| ==> ps[j].0 != k
  }

  /** `LastValue` is the value of the pair with key `k` that no later pair overrides. */
  lemma {:induction false} LastValueIsLast<V>(ps: seq<(string, V)>, k: string)
    requires LastValue(ps, k).Some?
    ensures exists i :: IsLastWithKey(ps, k, i) && ps[i].1 == LastValue(ps, k).value
  {
    var n := |ps| - 1;
    if ps[n].0 == k {
      assert IsLastWithKey(ps, k, n);
    } else {
      var init := ps[..n];
      LastValueIsLast(init, k);
      var i :| IsLastWithKey(init, k, i) && init[i].1 == LastValue(init, k).value;
      assert ps[i] == init[i];
      forall j | i < j < |ps| ensures ps[j].0 != k {
        if j < n {
          assert ps[j] == init[j];
        }
      }
      assert IsLastWithKey(ps, k, i);
    }
  }

  /** `LastValue` is None exactly when no pair has key `k`. */
  lemma {:induction false} LastValueNone<V>(ps: seq<(string, V)>, k: string)
    ensures LastValue(ps, k).None? <==> forall i :: 0 <= i < |ps| ==> ps[i].0 != k
  {
    if ps != [] {
      var init := ps[..|ps| - 1];
      LastValueNone(init, k);
      assert forall i :: 0 <= i < |init| ==> ps[i] == init[i];
    }
  }

  /** In `Hash[pairs]` a key repeated in the pairs maps to its last value. */
  lemma {:induction false} FromPairsLookup<V>(ps: seq<(string, V)>)
    ensures forall k :: Lookup(FromPairs(ps), k) == LastValue(ps, k)
  {
    if ps != [] {
      FromPairsLookup(ps[..|ps| - 1]);
    }
  }

  /** `Hash[pairs]` always has distinct keys. */
  lemma {:induction false} FromPairsDistinctKeys<V>(ps: seq<(string, V)>)
    ensures DistinctKeys(FromPairs(ps))
  {
    if ps != [] {
      FromPairsDistinctKeys(ps[..|ps| - 1]);
      StoreDistinct(FromPairs(ps[..|ps| - 1]), ps[|ps| - 1].0, ps[|ps| - 1].1);
    }
  }

  /** Pairs whose keys are already distinct are kept as they are, in order. */
  lemma {:induction false} FromPairsOfDistinct<V>(ps: seq<(string, V)>)
    requires DistinctKeys(ps)
    ensures FromPairs(ps) == ps
  {
    if ps != [] {
      var init := ps[..|ps| - 1];
      var last := ps[|ps| - 1];
      assert DistinctKeys(init);
      FromPairsOfDistinct(init);
      assert Lookup(init, last.0) == None by {
        LookupAbsent(init, last.0);
      }
      StoreNewKey(init, last.0, last.1);
      assert init + [last] == ps;
    }
  }
}
