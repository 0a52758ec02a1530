/**
 * Python's `dict` as the code uses it: an insertion-ordered table with at most
 * one entry per key. Assigning to a present key keeps the key's position and
 * replaces its value; assigning to a new key appends it.
 */
module Dicts {
  import opened Wrappers

  /** The entries of a dict, in insertion order. */
  type Dict<K, V> = seq<(K, V)>

  /** No element occurs twice. */
  predicate Distinct<T(==)>(s: seq<T>)
  {
    forall i, j :: 0 <= i < j < |s| ==> s[i] != s[j]
  }

  /** The keys of a dict (or the first components of a list of pairs), in order. */
  function Keys<K, V>(d: Dict<K, V>): (ks: seq<K>)
    ensures |ks| == |d|
    ensures forall i :: 0 <= i < |d| ==> ks[i] == d[i].0
  {
    seq(|d|, i requires 0 <= i < |d| => d[i].0)
  }

  /** A dict in the sense of Python: no key twice. */
  predicate WellFormed<K(==,!new), V>(d: Dict<K, V>)
  {
    Distinct(Keys(d))
  }

  /** Python `d.get(k)`. */
  function Get<K(==,!new), V>(d: Dict<K, V>, k: K): (r: Option<V>)
    ensures r.None? <==> k !in Keys(d)
    ensures r.Some? ==> (k, r.value) in d
  {
    if d == [] then None
    else if d[0].0 == k then Some(d[0].1)
    else
      assert Keys(d) == [d[0].0] + Keys(d[1..]);
      Get(d[1..], k)
  }

  /** In a well-formed dict every entry is what `get` finds under its key. */
  lemma {:induction false} GetEntry<K(!new), V>(d: Dict<K, V>, k: K, v: V)
    requires WellFormed(d) && (k, v) in d
    ensures Get(d, k) == Some(v)
  {
    if d[0].0 != k {
      assert Keys(d[1..]) == Keys(d)[1..];
      GetEntry(d[1..], k, v);
    }
  }

  /** The position of the first entry of `d` whose key is `k`. */
  function KeyIndex<K(==,!new), V>(d: Dict<K, V>, k: K): (i: nat)
    requires k in Keys(d)
    ensures i < |d| && d[i].0 == k
    ensures forall j :: 0 <= j < i ==> d[j].0 != k
  {
    if d[0].0 == k then 0
    else
      assert Keys(d) == [d[0].0] + Keys(d[1..]);
      1 + KeyIndex(d[1..], k)
  }

  /** `get` finds the first entry whose key is `k`. */
  lemma {:induction false} GetFirst<K(!new), V>(d: Dict<K, V>, k: K, i: nat)
    requires i < |d| && d[i].0 == k
    requires forall j :: 0 <= j < i ==> d[j].0 != k
    ensures Get(d, k) == Some(d[i].1)
  {
    if i > 0 {
      GetFirst(d[1..], k, i - 1);
    }
  }

  /** Python `d[k] = v`, as the new dict: an existing key keeps its place, a new key goes last. */
  function Put<K(==,!new), V>(d: Dict<K, V>, k: K, v: V): (r: Dict<K, V>)
    ensures Keys(r) == if k in Keys(d) then Keys(d) else Keys(d) + [k]
    ensures Get(r, k) == Some(v)
    ensures forall k' :: k' != k ==> Get(r, k') == Get(d, k')
  {
    if k in Keys(d) then
      var i := KeyIndex(d, k);
      var r := d[i := (k, v)];
      assert Keys(r) == Keys(d);
      GetFirst(r, k, i);
      PutOthers(d, r, k);
      r
    else
      var r := d + [(k, v)];
      assert Keys(r) == Keys(d) + [k];
      GetFirst(r, k, |d|);
      PutOthers(d, r, k);
      r
  }

  /** A dict that differs from `d` only in entries keyed `k` (and perhaps one more such entry at the end) looks up other keys alike. */
  lemma PutOthers<K(!new), V>(d: Dict<K, V>, r: Dict<K, V>, k: K)
    requires |d| <= |r| <= |d| + 1
    requires forall j :: 0 <= j < |r| ==> r[j].0 == k || (j < |d| && r[j] == d[j])
    requires forall j :: 0 <= j < |d| ==> d[j].0 == k || r[j] == d[j]
    ensures forall k' :: k' != k ==> Get(r, k') == Get(d, k')
  {
    forall k' | k' != k
      ensures Get(r, k') == Get(d, k')
    {
      if k' in Keys(d) {
        var i := KeyIndex(d, k');
        GetFirst(d, k', i);
        GetFirst(r, k', i);
      } else {
        forall j | 0 <= j < |r|
          ensures Keys(r)[j] != k'
        {
          if j < |d| {
            assert Keys(d)[j] == d[j].0;
          }
        }
      }
    }
  }

  /** Python `{k: v for k, v in ps}`, or `d[k] = v` for each pair in turn from an empty `d`. */
  function FromPairs<K(==,!new), V>(ps: seq<(K, V)>): (d: Dict<K, V>)
    ensures WellFormed(d)
  {
    if ps == [] then []
    else
      var n := |ps| - 1;
      var d := FromPairs(ps[..n]);
      var r := Put(d, ps[n].0, ps[n].1);
      assert Keys(r) == if ps[n].0 in Keys(d) then Keys(d) else Keys(d) + [ps[n].0];
      r
  }

  /** The elements of `s`, each at the place where it first occurs. */
  function FirstOccurrences<T(==,!new)>(s: seq<T>): (r: seq<T>)
    ensures Distinct(r)
    ensures forall x :: x in r <==> x in s
  {
    if s == [] then []
    else
      var n := |s| - 1;
      assert s == s[..n] + [s[n]];
      FirstOccurrences(s[..n]) + (if s[n] in s[..n] then [] else [s[n]])
  }

  /** The value of the last pair in `ps` whose key is `k`. */
  function LastValue<K(==,!new), V>(ps: seq<(K, V)>, k: K): (r: Option<V>)
    ensures r.None? <==> k !in Keys(ps)
    ensures r.Some? ==> exists i :: 0 <= i < |ps| && ps[i] == (k, r.value) && forall j :: i < j < |ps| ==> ps[j].0 != k
  {
    if ps == [] then None
    else
      var n := |ps| - 1;
      assert Keys(ps) == Keys(ps[..n]) + [ps[n].0];
      if ps[n].0 == k then Some(ps[n].1) else LastValue(ps[..n], k)
  }

  /** The keys of a dict built from pairs are the pairs' keys in order of first occurrence. */
  lemma {:induction false} FromPairsKeys<K(!new), V>(ps: seq<(K, V)>)
    ensures Keys(FromPairs(ps)) == FirstOccurrences(Keys(ps))
  {
    if ps != [] {
      var n := |ps| - 1;
      FromPairsKeys(ps[..n]);
      assert Keys(ps[..n]) == Keys(ps)[..n];
    }
  }

  /** A dict built from pairs maps every key to the value of the last pair with that key. */
  lemma {:induction false} FromPairsGet<K(!new), V>(ps: seq<(K, V)>, k: K)
    ensures Get(FromPairs(ps), k) == LastValue(ps, k)
  {
    if ps != [] {
      FromPairsGet(ps[..|ps| - 1], k);
    }
  }

  /** Every entry of a dict built from pairs is one of the pairs. */
  lemma FromPairsEntries<K(!new), V>(ps: seq<(K, V)>)
    ensures forall e :: e in FromPairs(ps) ==> e in ps
  {
    forall e | e in FromPairs(ps) ensures e in ps {
      GetEntry(FromPairs(ps), e.0, e.1);
      FromPairsGet(ps, e.0);
    }
  }

  /** Pairs with distinct keys make a dict with exactly those entries, in the same order. */
  lemma {:induction false} FromDistinctPairs<K(!new), V>(ps: seq<(K, V)>)
    requires Distinct(Keys(ps))
    ensures FromPairs(ps) == ps
  {
    if ps != [] {
      var n := |ps| - 1;
      var init := ps[..n];
      assert ps == init + [ps[n]];
      var ks := Keys(ps);
      assert forall i :: 0 <= i < n ==> Keys(init)[i] == ks[i];
      assert Distinct(Keys(init));
      FromDistinctPairs(init);
      assert ps[n].0 !in Keys(init) by {
        assert forall i :: 0 <= i < n ==> Keys(init)[i] != ks[n];
      }
      FromPairsSnoc(ps);
    }
  }

  /** A dict comprehension assigns its last pair after all the others. */
  lemma FromPairsSnoc<K(!new), V>(ps: seq<(K, V)>)
    requires ps != []
    ensures FromPairs(ps) == Put(FromPairs(ps[..|ps| - 1]), ps[|ps| - 1].0, ps[|ps| - 1].1)
  {
  }

  /** The contents of a dict as a map, forgetting the order. */
  function ToMap<K(==,!new), V>(d: Dict<K, V>): (m: map<K, V>)
    ensures forall k :: k in m <==> k in Keys(d)
    ensures forall k :: k in m ==> Get(d, k) == Some(m[k])
  {
    var m := map k | k in Keys(d) :: Get(d, k).value;
    assert forall k :: k in m ==> Get(d, k).Some? && m[k] == Get(d, k).value;
    m
  }

  /** Python `d1 == d2`: the same keys with the same values, whatever the order. */
  predicate Equal<K(==,!new), V(==)>(d1: Dict<K, V>, d2: Dict<K, V>)
  {
    ToMap(d1) == ToMap(d2)
  }

  /** Dict equality is lookup equality. */
  lemma EqualIff<K(!new), V>(d1: Dict<K, V>, d2: Dict<K, V>)
    ensures Equal(d1, d2) ==> forall k :: Get(d1, k) == Get(d2, k)
    ensures (forall k :: Get(d1, k) == Get(d2, k)) ==> Equal(d1, d2)
  {
    var m1, m2 := ToMap(d1), ToMap(d2);
    forall k ensures m1 == m2 ==> Get(d1, k) == Get(d2, k) {
      if m1 == m2 && k !in m1 {
        assert k !in Keys(d1) && k !in Keys(d2);
      }
    }
    if forall k :: Get(d1, k) == Get(d2, k) {
      forall k | k in m1 ensures k in m2 && m1[k] == m2[k] {
        assert Get(d2, k) == Some(m1[k]);
      }
      forall k | k in m2 ensures k in m1 {
        assert Get(d1, k) == Some(m2[k]);
      }
      assert m1 == m2;
    }
  }

  /** Two well-formed dicts holding the same entries in another order are equal. */
  lemma ReorderedEqual<K(!new), V>(d1: Dict<K, V>, d2: Dict<K, V>)
    requires WellFormed(d1) && WellFormed(d2)
    requires multiset(d1) == multiset(d2)
    ensures Equal(d1, d2)
  {
    forall k ensures Get(d1, k) == Get(d2, k) {
      if Get(d1, k).Some? {
        var v := Get(d1, k).value;
        assert (k, v) in multiset(d2);
        GetEntry(d2, k, v);
      }
      if Get(d2, k).Some? {
        var v := Get(d2, k).value;
        assert (k, v) in multiset(d1);
        GetEntry(d1, k, v);
      }
    }
    EqualIff(d1, d2);
  }
}
