/**
 * Insertion-ordered dictionaries. Python dicts iterate in the order their keys
 * were first inserted; wherever that order reaches an output the model keeps
 * the dict as an association list with distinct keys.
 */
module Dicts {
  import opened Wrappers

  type Dict<K, V> = seq<(K, V)>

  function Keys<K, V>(d: Dict<K, V>): (r: seq<K>)
    ensures |r| == |d|
    ensures forall i :: 0 <= i < |d| ==> r[i] == d[i].0
  {
    seq(|d|, i requires 0 <= i < |d| => d[i].0)
  }

  function Values<K, V>(d: Dict<K, V>): (r: seq<V>)
    ensures |r| == |d|
    ensures forall i :: 0 <= i < |d| ==> r[i] == d[i].1
  {
    seq(|d|, i requires 0 <= i < |d| => d[i].1)
  }

  predicate Distinct<T(==)>(s: seq<T>)
  {
    forall i, j :: 0 <= i < j < |s| ==> s[i] != s[j]
  }

  /** The invariant every Python dict satisfies: no key twice. */
  predicate UniqueKeys<K(==,!new), V(!new)>(d: Dict<K, V>)
  {
    Distinct(Keys(d))
  }

  /** `d.get(k)`. */
  function Get<K(==,!new), V(!new)>(d: Dict<K, V>, k: K): Option<V>
  {
    if d == [] then None
    else if d[0].0 == k then Some(d[0].1)
    else Get(d[1..], k)
  }

  /** A value found under a key is stored with it. */
  lemma {:induction false} GetIn<K(!new), V(!new)>(d: Dict<K, V>, k: K)
    ensures Get(d, k).Some? ==> (k, Get(d, k).value) in d
  {
    if d != [] && d[0].0 != k {
      GetIn(d[1..], k);
      if Get(d, k).Some? {
        assert (k, Get(d, k).value) in d[1..];
      }
    }
  }

  /** A key has a value exactly when it is one of the keys. */
  lemma {:induction false} GetDefined<K(!new), V(!new)>(d: Dict<K, V>, k: K)
    ensures Get(d, k).Some? <==> k in Keys(d)
  {
    if d != [] {
      GetDefined(d[1..], k);
      assert Keys(d) == [d[0].0] + Keys(d[1..]);
    }
  }

  /**
   * `d[k] = v`: an existing key keeps its position and takes the new value,
   * a new key goes at the end.
   */
  function Put<K(==,!new), V(!new)>(d: Dict<K, V>, k: K, v: V): (r: Dict<K, V>)
    ensures Get(r, k) == Some(v)
  {
    if d == [] then [(k, v)]
    else if d[0].0 == k then [(k, v)] + d[1..]
    else
      var rest := Put(d[1..], k, v);
      assert ([d[0]] + rest)[1..] == rest;
      [d[0]] + rest
  }

  /** Writing an existing key keeps the key order; writing a new key appends it. */
  lemma PutKeys<K(!new), V(!new)>(d: Dict<K, V>, k: K, v: V)
    ensures Keys(Put(d, k, v)) == if k in Keys(d) then Keys(d) else Keys(d) + [k]
  {
    if k in Keys(d) {
      PutKeysPresent(d, k, v);
    } else {
      PutNew(d, k, v);
      assert Keys(d + [(k, v)]) == Keys(d) + [k];
    }
  }

  /** Writing a key the dict already has leaves its keys as they were. */
  lemma {:induction false} PutKeysPresent<K(!new), V(!new)>(d: Dict<K, V>, k: K, v: V)
    requires k in Keys(d)
    ensures Keys(Put(d, k, v)) == Keys(d)
  {
    assert d == [d[0]] + d[1..];
    KeysCons(d[0], d[1..]);
    if d[0].0 == k {
      KeysCons((k, v), d[1..]);
    } else {
      assert k in Keys(d[1..]);
      assert Put(d, k, v) == [d[0]] + Put(d[1..], k, v);
      PutKeysPresent(d[1..], k, v);
      KeysCons(d[0], Put(d[1..], k, v));
    }
  }

  /** The keys of a dict with one more entry in front. */
  lemma KeysCons<K, V>(x: (K, V), d: Dict<K, V>)
    ensures Keys([x] + d) == [x.0] + Keys(d)
  {
  }

  /** Writing a key the dict does not have appends one entry. */
  lemma {:induction false} PutNew<K(!new), V(!new)>(d: Dict<K, V>, k: K, v: V)
    requires k !in Keys(d)
    ensures Put(d, k, v) == d + [(k, v)]
  {
    if d != [] {
      assert d == [d[0]] + d[1..];
      KeysCons(d[0], d[1..]);
      PutNew(d[1..], k, v);
      assert d + [(k, v)] == [d[0]] + (d[1..] + [(k, v)]);
    }
  }

  /** Writing one key leaves every other key's value as it was. */
  lemma {:induction false} PutOther<K(!new), V(!new)>(d: Dict<K, V>, k: K, v: V, j: K)
    requires j != k
    ensures Get(Put(d, k, v), j) == Get(d, j)
  {
    if d != [] && d[0].0 != k {
      PutOther(d[1..], k, v, j);
      assert ([d[0]] + Put(d[1..], k, v))[1..] == Put(d[1..], k, v);
    }
  }

  /** Every entry after a put is the new one or was there before. */
  lemma {:induction false} PutIn<K(!new), V(!new)>(d: Dict<K, V>, k: K, v: V, p: (K, V))
    requires p in Put(d, k, v)
    ensures p == (k, v) || p in d
  {
    if d != [] && d[0].0 != k && p != d[0] {
      assert p in Put(d[1..], k, v);
      PutIn(d[1..], k, v, p);
    }
  }

  /** With distinct keys, every entry is what its key looks up. */
  lemma {:induction false} UniqueGet<K(!new), V(!new)>(d: Dict<K, V>, i: int)
    requires UniqueKeys(d) && 0 <= i < |d|
    ensures Get(d, d[i].0) == Some(d[i].1)
  {
    if i > 0 {
      assert Keys(d)[0] != Keys(d)[i];
      assert UniqueKeys(d[1..]) by {
        forall a, b | 0 <= a < b < |d| - 1 ensures Keys(d[1..])[a] != Keys(d[1..])[b] {
          assert Keys(d)[a + 1] != Keys(d)[b + 1];
        }
      }
      UniqueGet(d[1..], i - 1);
    }
  }

  /** Appending a new key: it maps to its value, every other key as before. */
  lemma {:induction false} AppendGet<K(!new), V(!new)>(d: Dict<K, V>, k: K, v: V, j: K)
    requires k !in Keys(d)
    ensures Get(d + [(k, v)], j) == if j == k then Some(v) else Get(d, j)
    ensures Keys(d + [(k, v)]) == Keys(d) + [k]
  {
    if d != [] {
      assert Keys(d) == [d[0].0] + Keys(d[1..]);
      AppendGet(d[1..], k, v, j);
      assert (d + [(k, v)])[1..] == d[1..] + [(k, v)];
    }
  }

  /** `d.pop(k, None)`: every entry under k goes, the others keep their order. */
  function Remove<K(==,!new), V(!new)>(d: Dict<K, V>, k: K): (r: Dict<K, V>)
    ensures k !in Keys(r)
    ensures forall j :: j != k ==> Get(r, j) == Get(d, j)
    ensures forall e :: e in r <==> e in d && e.0 != k
  {
    if d == [] then []
    else if d[0].0 == k then Remove(d[1..], k)
    else [d[0]] + Remove(d[1..], k)
  }

  lemma {:induction false} PutKeepsUnique<K(!new), V(!new)>(d: Dict<K, V>, k: K, v: V)
    requires UniqueKeys(d)
    ensures UniqueKeys(Put(d, k, v))
  {
    PutKeys(d, k, v);
    var ks := Keys(d);
    if k !in ks {
      var ks' := ks + [k];
      forall i, j | 0 <= i < j < |ks'| ensures ks'[i] != ks'[j] {
        if j == |ks| { assert ks'[i] == ks[i]; }
      }
    }
  }

  lemma {:induction false} RemoveKeepsUnique<K(!new), V(!new)>(d: Dict<K, V>, k: K)
    requires UniqueKeys(d)
    ensures UniqueKeys(Remove(d, k))
  {
    if d != [] {
      assert UniqueKeys(d[1..]) by {
        forall i, j | 0 <= i < j < |d| - 1 ensures Keys(d[1..])[i] != Keys(d[1..])[j] {
          assert Keys(d)[i + 1] != Keys(d)[j + 1];
        }
      }
      RemoveKeepsUnique(d[1..], k);
      if d[0].0 != k {
        var r := Remove(d[1..], k);
        forall i | 0 <= i < |r| ensures r[i].0 != d[0].0 {
          assert r[i] in d[1..];
          var m :| 0 <= m < |d[1..]| && d[1..][m] == r[i];
          assert Keys(d)[0] != Keys(d)[m + 1];
        }
      }
    }
  }

  /**
   * The distinct elements of s in order of first occurrence: the key order of a
   * dict (or defaultdict) filled by one pass over s.
   */
  function FirstSeen<T(==,!new)>(s: seq<T>): (r: seq<T>)
    ensures forall x :: x in r <==> x in s
    ensures Distinct(r)
  {
    if s == [] then []
    else
      var init := s[..|s| - 1];
      var r := FirstSeen(init);
      assert s == init + [s[|s| - 1]];
      if s[|s| - 1] in r then r else r + [s[|s| - 1]]
  }
}
