/**
 * The merge the CVE proxy applies when a security advisory brings a package
 * document for a CVE the index already holds. Both levels of the document (the
 * os list, keyed by os version, and each os's arch list, keyed by arch name) are
 * merged the same way: the older list is turned into a dict, each newer entry whose
 * key the dict has is merged with the entry it pops, and the entries the dict
 * still holds are appended after the newer ones.
 */
module PkgDocMerge {
  import opened Wrappers
  import Dicts
  import opened Store

  // ---------------------------------------------------------------- keyed lists

  /** The key of every entry of xs, in order. */
  function KeysOf<T>(xs: seq<T>, key: T -> string): (r: seq<string>)
    ensures |r| == |xs|
    ensures forall i :: 0 <= i < |xs| ==> r[i] == key(xs[i])
  {
    seq(|xs|, i requires 0 <= i < |xs| => key(xs[i]))
  }

  /**
   * `reformat_os_list` / `reformat_arch_list`: one pass writing each entry under
   * its key, so for a repeated key the last entry wins at the first one's position.
   */
  function Reformat<T(!new)>(xs: seq<T>, key: T -> string): Dicts.Dict<string, T>
  {
    if xs == [] then []
    else
      var n := |xs| - 1;
      Dicts.Put(Reformat(xs[..n], key), key(xs[n]), xs[n])
  }

  /** Every entry of xs under its own key, in order. */
  function Entries<T>(xs: seq<T>, key: T -> string): (r: Dicts.Dict<string, T>)
    ensures |r| == |xs|
    ensures forall i :: 0 <= i < |xs| ==> r[i] == (key(xs[i]), xs[i])
  {
    seq(|xs|, i requires 0 <= i < |xs| => (key(xs[i]), xs[i]))
  }

  /** The first entry of xs with key k. */
  function Find<T>(xs: seq<T>, key: T -> string, k: string): Option<T>
  {
    if xs == [] then None
    else if key(xs[0]) == k then Some(xs[0])
    else Find(xs[1..], key, k)
  }

  /** The entries of xs whose key is none of ks, in order. */
  function Without<T>(xs: seq<T>, key: T -> string, ks: seq<string>): seq<T>
  {
    if xs == [] then []
    else (if key(xs[0]) in ks then [] else [xs[0]]) + Without(xs[1..], key, ks)
  }

  /** A newer entry, merged with the older entry under its key when there is one. */
  function Combined<T>(n: T, older: seq<T>, key: T -> string, combine: (T, T) -> T): T
  {
    match Find(older, key, key(n))
    case Some(o) => combine(n, o)
    case None => n
  }

  /** Every newer entry, merged with the older entry under its key. */
  function MergedEach<T>(newer: seq<T>, older: seq<T>, key: T -> string, combine: (T, T) -> T): (r: seq<T>)
    ensures |r| == |newer|
    ensures forall i :: 0 <= i < |newer| ==> r[i] == Combined(newer[i], older, key, combine)
  {
    if newer == [] then [] else [Combined(newer[0], older, key, combine)] + MergedEach(newer[1..], older, key, combine)
  }

  /** One turn of the loop: a newer entry whose key the dict has pops that entry and is merged with it. */
  function Turn<T(!new)>(d: Dicts.Dict<string, T>, n: T, key: T -> string, combine: (T, T) -> T): (Dicts.Dict<string, T>, T)
  {
    match Dicts.Get(d, key(n))
    case Some(o) => (Dicts.Remove(d, key(n)), combine(n, o))
    case None => (d, n)
  }

  /**
   * The loop over the newer list, from dict d: the entries d still holds at the
   * end, and the newer entries as they stand after the loop.
   */
  function MergeFrom<T(!new)>(d: Dicts.Dict<string, T>, newer: seq<T>, key: T -> string, combine: (T, T) -> T)
    : (Dicts.Dict<string, T>, seq<T>)
    decreases |newer|
  {
    if newer == [] then (d, [])
    else
      var step := Turn(d, newer[0], key, combine);
      var rest := MergeFrom(step.0, newer[1..], key, combine);
      (rest.0, [step.1] + rest.1)
  }

  /** The merged list: the newer entries as merged, then what is left of the older dict. */
  function MergeKeyed<T(!new)>(older: seq<T>, newer: seq<T>, key: T -> string, combine: (T, T) -> T): seq<T>
  {
    var m := MergeFrom(Reformat(older, key), newer, key, combine);
    m.1 + Dicts.Values(m.0)
  }

  /** Without repeated keys, the dict built from a list is the list itself under its keys. */
  lemma {:induction false} ReformatDistinct<T(!new)>(xs: seq<T>, key: T -> string)
    requires Dicts.Distinct(KeysOf(xs, key))
    ensures Reformat(xs, key) == Entries(xs, key)
  {
    if xs != [] {
      var n := |xs| - 1;
      var init := xs[..n];
      assert Dicts.Distinct(KeysOf(init, key)) by {
        forall i, j | 0 <= i < j < n ensures KeysOf(init, key)[i] != KeysOf(init, key)[j] {
          assert KeysOf(xs, key)[i] != KeysOf(xs, key)[j];
        }
      }
      ReformatDistinct(init, key);
      assert key(xs[n]) !in Dicts.Keys(Entries(init, key)) by {
        forall i | 0 <= i < n ensures Dicts.Keys(Entries(init, key))[i] != key(xs[n]) {
          assert KeysOf(xs, key)[i] != KeysOf(xs, key)[n];
        }
      }
      Dicts.PutNew(Entries(init, key), key(xs[n]), xs[n]);
      assert Entries(init, key) + [(key(xs[n]), xs[n])] == Entries(xs, key);
    }
  }

  /** Looking a key up in the entries finds the list's first entry with that key. */
  lemma {:induction false} EntriesGet<T(!new)>(xs: seq<T>, key: T -> string, k: string)
    ensures Dicts.Get(Entries(xs, key), k) == Find(xs, key, k)
  {
    if xs != [] {
      assert Entries(xs, key)[1..] == Entries(xs[1..], key);
      EntriesGet(xs[1..], key, k);
    }
  }

  /** Popping a key from the entries leaves the entries of the list without that key. */
  lemma {:induction false} EntriesRemove<T(!new)>(xs: seq<T>, key: T -> string, k: string)
    ensures Dicts.Remove(Entries(xs, key), k) == Entries(Without(xs, key, [k]), key)
  {
    if xs != [] {
      var d := Entries(xs, key);
      assert d[0].0 == key(xs[0]);
      assert d[1..] == Entries(xs[1..], key);
      EntriesRemove(xs[1..], key, k);
      var rest := Without(xs[1..], key, [k]);
      if key(xs[0]) == k {
        assert Without(xs, key, [k]) == rest;
      } else {
        assert Without(xs, key, [k]) == [xs[0]] + rest;
        assert Dicts.Remove(d, k) == [d[0]] + Entries(rest, key);
        EntriesCons(xs[0], rest, key);
      }
    }
  }

  /** The entries of a list with one more element in front. */
  lemma EntriesCons<T>(x: T, ys: seq<T>, key: T -> string)
    ensures Entries([x] + ys, key) == [(key(x), x)] + Entries(ys, key)
  {
  }

  /** Leaving out k and then ks is leaving out k and ks at once. */
  lemma {:induction false} WithoutWithout<T>(xs: seq<T>, key: T -> string, k: string, ks: seq<string>)
    ensures Without(Without(xs, key, [k]), key, ks) == Without(xs, key, [k] + ks)
  {
    if xs != [] {
      WithoutWithout(xs[1..], key, k, ks);
      var rest := Without(xs[1..], key, [k]);
      assert key(xs[0]) in [k] + ks <==> key(xs[0]) == k || key(xs[0]) in ks;
      if key(xs[0]) != k {
        assert Without(xs, key, [k]) == [xs[0]] + rest;
        assert ([xs[0]] + rest)[0] == xs[0] && ([xs[0]] + rest)[1..] == rest;
      } else {
        assert Without(xs, key, [k]) == rest;
      }
    }
  }

  /** Leaving out k does not change where another key is found. */
  lemma {:induction false} FindWithout<T>(xs: seq<T>, key: T -> string, k: string, j: string)
    requires j != k
    ensures Find(Without(xs, key, [k]), key, j) == Find(xs, key, j)
  {
    if xs != [] {
      FindWithout(xs[1..], key, k, j);
      var rest := Without(xs[1..], key, [k]);
      if key(xs[0]) != k {
        assert Without(xs, key, [k]) == [xs[0]] + rest;
        assert ([xs[0]] + rest)[0] == xs[0] && ([xs[0]] + rest)[1..] == rest;
      } else {
        assert Without(xs, key, [k]) == rest;
      }
    }
  }

  /** Leaving out a key no entry has changes nothing. */
  lemma {:induction false} WithoutAbsent<T>(xs: seq<T>, key: T -> string, k: string)
    requires Find(xs, key, k) == None
    ensures Without(xs, key, [k]) == xs
  {
    if xs != [] {
      WithoutAbsent(xs[1..], key, k);
      assert xs == [xs[0]] + xs[1..];
    }
  }

  /** One turn of the loop from the entries of xs: the first newer entry is merged and its key popped. */
  lemma MergeFromStep<T(!new)>(xs: seq<T>, newer: seq<T>, key: T -> string, combine: (T, T) -> T)
    requires newer != []
    ensures var xs' := Without(xs, key, [key(newer[0])]);
      var rest := MergeFrom(Entries(xs', key), newer[1..], key, combine);
      MergeFrom(Entries(xs, key), newer, key, combine) == (rest.0, [Combined(newer[0], xs, key, combine)] + rest.1)
  {
    var k := key(newer[0]);
    EntriesGet(xs, key, k);
    EntriesRemove(xs, key, k);
    if Find(xs, key, k) == None {
      WithoutAbsent(xs, key, k);
    }
  }

  /** The tail of a list without repeated keys has none either. */
  lemma DistinctTail<T>(newer: seq<T>, key: T -> string)
    requires newer != [] && Dicts.Distinct(KeysOf(newer, key))
    ensures Dicts.Distinct(KeysOf(newer[1..], key))
    ensures forall i :: 1 <= i < |newer| ==> key(newer[i]) != key(newer[0])
  {
    var tail := newer[1..];
    forall i, j | 0 <= i < j < |tail| ensures KeysOf(tail, key)[i] != KeysOf(tail, key)[j] {
      assert KeysOf(newer, key)[i + 1] != KeysOf(newer, key)[j + 1];
    }
    forall i | 1 <= i < |newer| ensures key(newer[i]) != key(newer[0]) {
      assert KeysOf(newer, key)[0] != KeysOf(newer, key)[i];
    }
  }

  /** Merging entries whose key is not k against xs without k is merging them against xs. */
  lemma {:induction false} MergedEachWithout<T>(newer: seq<T>, xs: seq<T>, key: T -> string, combine: (T, T) -> T, k: string)
    requires forall i :: 0 <= i < |newer| ==> key(newer[i]) != k
    ensures MergedEach(newer, Without(xs, key, [k]), key, combine) == MergedEach(newer, xs, key, combine)
  {
    if newer != [] {
      FindWithout(xs, key, k, key(newer[0]));
      MergedEachWithout(newer[1..], xs, key, combine, k);
    }
  }

  /**
   * The loop, started from the entries of a list xs and run over newer entries with
   * distinct keys: each newer entry is merged with xs's entry under its key, and
   * what is left is xs without the keys of the newer entries.
   */
  lemma {:induction false} MergeFromEntries<T(!new)>(xs: seq<T>, newer: seq<T>, key: T -> string, combine: (T, T) -> T)
    requires Dicts.Distinct(KeysOf(newer, key))
    ensures MergeFrom(Entries(xs, key), newer, key, combine).0 == Entries(Without(xs, key, KeysOf(newer, key)), key)
    ensures MergeFrom(Entries(xs, key), newer, key, combine).1 == MergedEach(newer, xs, key, combine)
    decreases |newer|
  {
    if newer == [] {
      WithoutNone(xs, key);
    } else {
      var k := key(newer[0]);
      var tail := newer[1..];
      var xs' := Without(xs, key, [k]);
      MergeFromStep(xs, newer, key, combine);
      DistinctTail(newer, key);
      MergeFromEntries(xs', tail, key, combine);
      WithoutWithout(xs, key, k, KeysOf(tail, key));
      assert [k] + KeysOf(tail, key) == KeysOf(newer, key);
      MergedEachWithout(tail, xs, key, combine, k);
    }
  }

  /** Leaving out no key changes nothing. */
  lemma {:induction false} WithoutNone<T>(xs: seq<T>, key: T -> string)
    ensures Without(xs, key, []) == xs
  {
    if xs != [] {
      WithoutNone(xs[1..], key);
      assert xs == [xs[0]] + xs[1..];
    }
  }

  /**
   * When neither list repeats a key, the merge is: every newer entry, in order,
   * merged with the older entry under its key if there is one, followed by the older
   * entries whose key no newer entry has, in their older order.
   */
  lemma MergeKeyedExact<T(!new)>(older: seq<T>, newer: seq<T>, key: T -> string, combine: (T, T) -> T)
    requires Dicts.Distinct(KeysOf(older, key)) && Dicts.Distinct(KeysOf(newer, key))
    ensures MergeKeyed(older, newer, key, combine)
      == MergedEach(newer, older, key, combine) + Without(older, key, KeysOf(newer, key))
  {
    ReformatDistinct(older, key);
    MergeFromEntries(older, newer, key, combine);
    var left := Without(older, key, KeysOf(newer, key));
    assert Dicts.Values(Entries(left, key)) == left;
  }

  /** An older entry whose key no newer entry has is appended to the newer list, which is otherwise kept. */
  lemma MergeKeyedFresh<T(!new)>(o: T, newer: seq<T>, key: T -> string, combine: (T, T) -> T)
    requires Dicts.Distinct(KeysOf(newer, key)) && key(o) !in KeysOf(newer, key)
    ensures MergeKeyed([o], newer, key, combine) == newer + [o]
  {
    assert Dicts.Distinct(KeysOf([o], key));
    MergeKeyedExact([o], newer, key, combine);
    assert [o][1..] == [];
    forall i | 0 <= i < |newer| ensures MergedEach(newer, [o], key, combine)[i] == newer[i] {
      assert KeysOf(newer, key)[i] == key(newer[i]);
      assert Find([o], key, key(newer[i])) == None;
    }
  }

  /** The loop from position i on is one turn followed by the loop from i + 1 on. */
  lemma MergeFromAt<T(!new)>(d: Dicts.Dict<string, T>, newer: seq<T>, i: nat, key: T -> string, combine: (T, T) -> T)
    requires i < |newer|
    ensures var step := Turn(d, newer[i], key, combine);
      var rest := MergeFrom(step.0, newer[i + 1..], key, combine);
      MergeFrom(d, newer[i..], key, combine) == (rest.0, [step.1] + rest.1)
  {
    assert newer[i..][0] == newer[i] && newer[i..][1..] == newer[i + 1..];
  }

  /** `reformat_*_list` as the loop it is. */
  method ReformatList<T(!new)>(xs: seq<T>, key: T -> string) returns (d: Dicts.Dict<string, T>)
    ensures d == Reformat(xs, key)
  {
    d := [];
    for i := 0 to |xs|
      invariant d == Reformat(xs[..i], key)
    {
      assert xs[..i + 1][..i] == xs[..i];
      d := Dicts.Put(d, key(xs[i]), xs[i]);
    }
    assert xs[..|xs|] == xs;
  }

  /** The merge loop shared by both levels of the document. */
  method MergeLists<T(!new)>(older: seq<T>, newer: seq<T>, key: T -> string, combine: (T, T) -> T) returns (r: seq<T>)
    ensures r == MergeKeyed(older, newer, key, combine)
  {
    var d := ReformatList(older, key);
    ghost var whole := MergeFrom(d, newer, key, combine);
    var out := [];
    assert newer[0..] == newer;
    for i := 0 to |newer|
      invariant whole.0 == MergeFrom(d, newer[i..], key, combine).0
      invariant whole.1 == out + MergeFrom(d, newer[i..], key, combine).1
    {
      ghost var step := Turn(d, newer[i], key, combine);
      MergeFromAt(d, newer, i, key, combine);
      var n := newer[i];
      var g := Dicts.Get(d, key(n));
      if g.Some? {
        d := Dicts.Remove(d, key(n));
        n := combine(n, g.value);
      }
      assert (d, n) == step;
      assert out + [n] + MergeFrom(d, newer[i + 1..], key, combine).1 == out + ([n] + MergeFrom(d, newer[i + 1..], key, combine).1);
      out := out + [n];
    }
    r := out + Dicts.Values(d);
  }

  // ---------------------------------------------------------------- the two levels

  function ArchName(a: ArchInfo): string
  {
    a.arch
  }

  function OsVersion(o: OsInfo): string
  {
    o.osVersion
  }

  /**
   * The arch entry of the newer document with its package list replaced by the
   * union of the newer and older lists (`list(set(newer) | set(older))`; the order of a
   * Python set is not modelled, so the union is kept in first-seen order).
   */
  function UnionPackages(n: ArchInfo, o: ArchInfo): (r: ArchInfo)
    ensures r.arch == n.arch
    ensures forall p :: p in r.packages <==> p in n.packages || p in o.packages
    ensures Dicts.Distinct(r.packages)
  {
    n.(packages := Dicts.FirstSeen(n.packages + o.packages))
  }

  /** `merge_arch_list`. */
  function MergeArchList(older: seq<ArchInfo>, newer: seq<ArchInfo>): seq<ArchInfo>
  {
    MergeKeyed(older, newer, ArchName, UnionPackages)
  }

  /** An os entry of the newer document, its arch list merged with the older entry's. */
  function MergeOs(n: OsInfo, o: OsInfo): OsInfo
  {
    n.(archList := MergeArchList(o.archList, n.archList))
  }

  /** `_merge_cve_pkg_doc`: the newer document, with its os list merged with the older one's. */
  function MergedDoc(older: PkgDoc, newer: PkgDoc): PkgDoc
  {
    newer.(osList := MergeKeyed(older.osList, newer.osList, OsVersion, MergeOs))
  }

  /** No arch name repeats in any os entry, and no os version repeats. */
  predicate WellKeyed(d: PkgDoc)
  {
    && Dicts.Distinct(KeysOf(d.osList, OsVersion))
    && forall i :: 0 <= i < |d.osList| ==> Dicts.Distinct(KeysOf(d.osList[i].archList, ArchName))
  }

  /**
   * Merging arch lists without repeated names: each newer arch keeps its place and
   * name; one the older list also has gets the union of both package lists, one
   * only the newer list has is kept as given; the arches only the older list has
   * follow, in their older order.
   */
  lemma MergeArchListExact(older: seq<ArchInfo>, newer: seq<ArchInfo>)
    requires Dicts.Distinct(KeysOf(older, ArchName)) && Dicts.Distinct(KeysOf(newer, ArchName))
    ensures var r := MergeArchList(older, newer);
      && |r| == |newer| + |Without(older, ArchName, KeysOf(newer, ArchName))|
      && (forall i :: 0 <= i < |newer| ==> r[i].arch == newer[i].arch)
      && (forall i :: 0 <= i < |newer| && Find(older, ArchName, newer[i].arch) == None ==> r[i] == newer[i])
      && (forall i :: 0 <= i < |newer| && Find(older, ArchName, newer[i].arch).Some? ==>
            forall p :: p in r[i].packages <==>
              p in newer[i].packages || p in Find(older, ArchName, newer[i].arch).value.packages)
      && r[|newer|..] == Without(older, ArchName, KeysOf(newer, ArchName))
  {
    MergeKeyedExact(older, newer, ArchName, UnionPackages);
  }

  /**
   * Merging two documents without repeated keys: the result is the newer document
   * (its id and description) whose os entries keep their place; one the older
   * document also has gets the merged arch list, one only the newer document has is
   * kept as given; the os entries only the older document has follow, in order.
   */
  lemma MergedDocExact(older: PkgDoc, newer: PkgDoc)
    requires WellKeyed(older) && WellKeyed(newer)
    ensures var r := MergedDoc(older, newer);
      var nos := newer.osList;
      && r.cveId == newer.cveId && r.description == newer.description
      && |r.osList| == |nos| + |Without(older.osList, OsVersion, KeysOf(nos, OsVersion))|
      && (forall i :: 0 <= i < |nos| ==>
            r.osList[i].osVersion == nos[i].osVersion && r.osList[i].updateTime == nos[i].updateTime)
      && (forall i :: 0 <= i < |nos| && Find(older.osList, OsVersion, nos[i].osVersion) == None ==>
            r.osList[i] == nos[i])
      && (forall i :: 0 <= i < |nos| && Find(older.osList, OsVersion, nos[i].osVersion).Some? ==>
            r.osList[i].archList == MergeArchList(Find(older.osList, OsVersion, nos[i].osVersion).value.archList, nos[i].archList))
      && r.osList[|nos|..] == Without(older.osList, OsVersion, KeysOf(nos, OsVersion))
  {
    MergeKeyedExact(older.osList, newer.osList, OsVersion, MergeOs);
  }

  /** `_merge_cve_pkg_doc` as the source runs it: the os loop, whose merge step runs the arch loop. */
  method MergeCvePkgDoc(older: PkgDoc, newer: PkgDoc) returns (r: PkgDoc)
    ensures r == MergedDoc(older, newer)
  {
    var osList := MergeLists(older.osList, newer.osList, OsVersion, MergeOs);
    r := newer.(osList := osList);
  }
}
