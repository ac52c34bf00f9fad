/**
 * The hotpatch update information of the dnf hotpatch plugin: the package list
 * and references of an advisory, the store that links advisories, CVEs and
 * hotpatches, the hotpatch states and the two queries by CVE and by advisory.
 */
module Hotpatches {
  import opened Wrappers
  import Dicts
  import Strs
  import Seqs
  import opened HotpatchSelect
  import opened XmlTree

  // ---------------------------------------------------------------- package list

  /**
   * A `package` element of a hot patch collection: its attributes and its
   * `filename` child, absent (None) or present with its text (which may itself
   * be absent).
   */
  datatype PackageElem = PackageElem(attrs: Dicts.Dict<string, string>, filename: Option<Option<string>>)

  /** A kept package: its attributes and the text of its `filename` child. */
  datatype PkgEntry = PkgEntry(attrs: Dicts.Dict<string, string>, filename: Option<string>)

  /**
   * One package of `_parse_pkglist`: a missing `arch` attribute is a KeyError,
   * a package of an arch the system does not support is skipped, and a
   * supported one without a `filename` child is an AttributeError.
   */
  function PackageStep(p: PackageElem, arches: seq<string>): (r: Result<Option<PkgEntry>, PyError>)
    ensures r.Ok? <==> Dicts.Get(p.attrs, "arch").Some? && (Dicts.Get(p.attrs, "arch").value in arches ==> p.filename.Some?)
    ensures r.Ok? && r.value.Some? ==> Dicts.Get(p.attrs, "arch").value in arches && r.value.value.attrs == p.attrs
  {
    match Dicts.Get(p.attrs, "arch")
    case None => Err(KeyError)
    case Some(arch) =>
      if arch !in arches then Ok(None)
      else (
        match p.filename
        case None => Err(AttributeError)
        case Some(text) => Ok(Some(PkgEntry(p.attrs, text)))
      )
  }

  /**
   * `_parse_pkglist` over the packages of the collection (a missing or empty
   * collection has none).
   */
  function PkgListOf(ps: seq<PackageElem>, arches: seq<string>): Result<seq<PkgEntry>, PyError>
  {
    if ps == [] then Ok([])
    else
      var n := |ps| - 1;
      var prev :- PkgListOf(ps[..n], arches);
      var step :- PackageStep(ps[n], arches);
      Ok(prev + (match step case Some(e) => [e] case None => []))
  }

  /** The package a step keeps, or nothing when it skips or fails. */
  function Kept(p: PackageElem, arches: seq<string>): Option<PkgEntry>
  {
    match PackageStep(p, arches)
    case Ok(o) => o
    case Err(_) => None
  }

  /**
   * The package list parses exactly when every package does, and then it holds
   * the packages of supported arches, in order.
   */
  lemma {:induction false} PkgListExact(ps: seq<PackageElem>, arches: seq<string>)
    ensures PkgListOf(ps, arches).Ok? <==> forall i :: 0 <= i < |ps| ==> PackageStep(ps[i], arches).Ok?
    ensures PkgListOf(ps, arches).Ok? ==> PkgListOf(ps, arches).value == Seqs.FilterMap(ps, p => Kept(p, arches))
  {
    if ps != [] {
      var n := |ps| - 1;
      PkgListExact(ps[..n], arches);
      assert forall i :: 0 <= i < n ==> ps[..n][i] == ps[i];
    }
  }

  /** Every package of a parsed list has an arch the system supports. */
  lemma PkgListArches(ps: seq<PackageElem>, arches: seq<string>, k: int)
    requires PkgListOf(ps, arches).Ok? && 0 <= k < |PkgListOf(ps, arches).value|
    ensures Dicts.Get(PkgListOf(ps, arches).value[k].attrs, "arch").Some?
    ensures Dicts.Get(PkgListOf(ps, arches).value[k].attrs, "arch").value in arches
  {
    PkgListExact(ps, arches);
    Seqs.FilterMapFrom(ps, p => Kept(p, arches), k);
  }

  lemma {:induction false} PkgListErrSticks(ps: seq<PackageElem>, arches: seq<string>, j: int)
    requires 0 <= j <= |ps| && PkgListOf(ps[..j], arches).Err?
    ensures PkgListOf(ps, arches) == PkgListOf(ps[..j], arches)
  {
    if j < |ps| {
      var n := |ps| - 1;
      assert ps[..n][..j] == ps[..j];
      PkgListErrSticks(ps[..n], arches, j);
    } else {
      assert ps[..j] == ps;
    }
  }

  /** The loop of `_parse_pkglist`. */
  method ParsePkgList(ps: seq<PackageElem>, arches: seq<string>) returns (r: Result<seq<PkgEntry>, PyError>)
    ensures r == PkgListOf(ps, arches)
  {
    var hotpatches: seq<PkgEntry> := [];
    for i := 0 to |ps|
      invariant PkgListOf(ps[..i], arches) == Ok(hotpatches)
    {
      assert ps[..i + 1][..i] == ps[..i];
      var arch := Dicts.Get(ps[i].attrs, "arch");
      if arch.None? {
        PkgListErrSticks(ps, arches, i + 1);
        return Err(KeyError);
      }
      if arch.value !in arches {
        assert PackageStep(ps[i], arches) == Ok(None);
        assert hotpatches + [] == hotpatches;
        continue;
      }
      if ps[i].filename.None? {
        PkgListErrSticks(ps, arches, i + 1);
        return Err(AttributeError);
      }
      assert PackageStep(ps[i], arches) == Ok(Some(PkgEntry(ps[i].attrs, ps[i].filename.value)));
      hotpatches := hotpatches + [PkgEntry(ps[i].attrs, ps[i].filename.value)];
    }
    assert ps[..|ps|] == ps;
    return Ok(hotpatches);
  }

  // ---------------------------------------------------------------- references

  /** A reference with an `id` attribute. */
  predicate HasId(attrs: Dicts.Dict<string, string>)
  {
    Dicts.Get(attrs, "id").Some?
  }

  /** The loop of `_parse_references`: the references without an `id` are dropped. */
  method ParseReferences(refs: seq<Dicts.Dict<string, string>>) returns (cves: seq<Dicts.Dict<string, string>>)
    ensures cves == Seqs.Filter(refs, HasId, true)
    ensures forall c :: c in cves <==> c in refs && HasId(c)
  {
    cves := [];
    for i := 0 to |refs|
      invariant cves == Seqs.Filter(refs[..i], HasId, true)
    {
      assert refs[..i + 1][..i] == refs[..i];
      if !HasId(refs[i]) {
        continue;
      }
      cves := cves + [refs[i]];
    }
    assert refs[..|refs|] == refs;
    Seqs.FilterSplit(refs, HasId);
  }

  // ---------------------------------------------------------------- the store

  /**
   * A hotpatch of an advisory before it is stored: its `id` attribute, the
   * comma-separated CVEs it fixes (None when the package had none), and its
   * derived attributes.
   */
  datatype HotpatchEntry = HotpatchEntry(id: Option<string>, attrs: PkgAttrs)

  /** An advisory: its severity and its hotpatches, as positions in the store's hotpatch list. */
  datatype Advisory = Advisory(severity: string, hotpatches: seq<nat>)

  /** `hotpatch_ref_id.split(',')`. */
  function IdsOf(e: HotpatchEntry): seq<string>
  {
    match e.id
    case Some(s) => Strs.Split(s, ',')
    case None => []
  }

  /**
   * `_store_advisory_info` raises KeyError unless every hotpatch has an id and
   * every CVE it names is one of the advisory's references.
   */
  predicate Storable(refs: seq<string>, hps: seq<HotpatchEntry>)
  {
    forall k :: 0 <= k < |hps| ==> hps[k].id.Some? && forall r :: r in IdsOf(hps[k]) ==> r in refs
  }

  /** Every reference starts a fresh, empty CVE entry that replaces any earlier one. */
  function ResetCves<K(==,!new)>(cves: Dicts.Dict<K, seq<nat>>, refs: seq<K>): Dicts.Dict<K, seq<nat>>
  {
    if refs == [] then cves
    else
      var n := |refs| - 1;
      Dicts.Put(ResetCves(cves, refs[..n]), refs[n], [])
  }

  /** `advisory_cves[ref_id].add_hotpatch(hotpatch)` for each CVE the hotpatch names. */
  function Attach<K(==,!new)>(d: Dicts.Dict<K, seq<nat>>, ids: seq<K>, idx: nat): Dicts.Dict<K, seq<nat>>
  {
    if ids == [] then d
    else
      var n := |ids| - 1;
      var prev := Attach(d, ids[..n], idx);
      Dicts.Put(prev, ids[n], Existing(prev, ids[n]) + [idx])
  }

  /** Attaching each hotpatch of the advisory, numbered from `base`. */
  function AttachAll<K(==,!new)>(d: Dicts.Dict<K, seq<nat>>, idss: seq<seq<K>>, base: nat): Dicts.Dict<K, seq<nat>>
  {
    if idss == [] then d
    else
      var n := |idss| - 1;
      Attach(AttachAll(d, idss[..n], base), idss[n], base + n)
  }

  /** The store's new hotpatch list entries for an advisory: all UNINSTALLABLE until the states are computed. */
  function NewHotpatches(advisoryId: string, hps: seq<HotpatchEntry>): (r: seq<Hotpatch>)
    ensures |r| == |hps|
  {
    seq(|hps|, k requires 0 <= k < |hps| => Hotpatch(hps[k].attrs, IdsOf(hps[k]), advisoryId, Uninstallable))
  }

  lemma NewHotpatchesAt(advisoryId: string, hps: seq<HotpatchEntry>, k: nat)
    requires k < |hps|
    ensures NewHotpatches(advisoryId, hps)[k] == Hotpatch(hps[k].attrs, IdLists(hps)[k], advisoryId, Uninstallable)
  {
    IdListsAt(hps, k);
  }

  /** The positions base, base + 1, ..., base + n - 1. */
  function Range(base: nat, n: nat): (r: seq<nat>)
    ensures |r| == n && forall k :: 0 <= k < n ==> r[k] == base + k
  {
    seq(n, k requires 0 <= k < n => base + k)
  }

  function Count<K(==,!new)>(ids: seq<K>, x: K): nat
  {
    if ids == [] then 0
    else
      var n := |ids| - 1;
      Count(ids[..n], x) + (if ids[n] == x then 1 else 0)
  }

  function Repeat(x: nat, n: nat): (r: seq<nat>)
    ensures |r| == n && forall k :: 0 <= k < n ==> r[k] == x
  {
    seq(n, _ => x)
  }

  /**
   * The hotpatches of the advisory that name CVE x, in order, each once per
   * time its id names x.
   */
  function Referencing<K(==,!new)>(idss: seq<seq<K>>, x: K, base: nat): seq<nat>
  {
    if idss == [] then []
    else
      var n := |idss| - 1;
      Referencing(idss[..n], x, base) + Repeat(base + n, Count(idss[n], x))
  }

  lemma {:induction false} CountPositive<K(!new)>(ids: seq<K>, x: K)
    ensures Count(ids, x) > 0 <==> x in ids
  {
    if ids != [] {
      var n := |ids| - 1;
      CountPositive(ids[..n], x);
      assert ids == ids[..n] + [ids[n]];
    }
  }

  /** Attaching one hotpatch appends it to each CVE it names, once per naming, and touches no other CVE. */
  lemma {:induction false} AttachGet<K(!new)>(d: Dicts.Dict<K, seq<nat>>, ids: seq<K>, idx: nat, x: K)
    ensures Existing(Attach(d, ids, idx), x) == Existing(d, x) + Repeat(idx, Count(ids, x))
    ensures Dicts.Get(d, x).Some? ==> Dicts.Get(Attach(d, ids, idx), x).Some?
  {
    if ids == [] {
      assert Existing(d, x) + [] == Existing(d, x);
    } else {
      var n := |ids| - 1;
      var prev := Attach(d, ids[..n], idx);
      var next := Dicts.Put(prev, ids[n], Existing(prev, ids[n]) + [idx]);
      assert Attach(d, ids, idx) == next;
      AttachGet(d, ids[..n], idx, x);
      var older := Repeat(idx, Count(ids[..n], x));
      assert Existing(prev, x) == Existing(d, x) + older;
      if ids[n] == x {
        assert Count(ids, x) == Count(ids[..n], x) + 1;
        assert Repeat(idx, Count(ids, x)) == older + [idx];
        assert Existing(next, x) == Existing(prev, x) + [idx];
        assert Existing(d, x) + older + [idx] == Existing(d, x) + (older + [idx]);
      } else {
        Dicts.PutOther(prev, ids[n], Existing(prev, ids[n]) + [idx], x);
        assert Count(ids, x) == Count(ids[..n], x);
      }
    }
  }

  /** Attaching one hotpatch touches no CVE it does not name. */
  lemma {:induction false} AttachOther<K(!new)>(d: Dicts.Dict<K, seq<nat>>, ids: seq<K>, idx: nat, x: K)
    requires x !in ids
    ensures Dicts.Get(Attach(d, ids, idx), x) == Dicts.Get(d, x)
  {
    if ids != [] {
      var n := |ids| - 1;
      var prev := Attach(d, ids[..n], idx);
      assert ids[n] in ids;
      assert forall y :: y in ids[..n] ==> y in ids;
      AttachOther(d, ids[..n], idx, x);
      Dicts.PutOther(prev, ids[n], Existing(prev, ids[n]) + [idx], x);
    }
  }

  /** Attaching the advisory's hotpatches appends to each CVE exactly the hotpatches naming it. */
  lemma AttachAllGet<K(!new)>(d: Dicts.Dict<K, seq<nat>>, idss: seq<seq<K>>, base: nat, x: K)
    ensures Existing(AttachAll(d, idss, base), x) == Existing(d, x) + Referencing(idss, x, base)
    ensures Dicts.Get(d, x).Some? ==> Dicts.Get(AttachAll(d, idss, base), x).Some?
  {
    AttachAllExisting(d, idss, base, x);
    AttachAllKeeps(d, idss, base, x);
  }

  lemma {:induction false} AttachAllExisting<K(!new)>(d: Dicts.Dict<K, seq<nat>>, idss: seq<seq<K>>, base: nat, x: K)
    ensures Existing(AttachAll(d, idss, base), x) == Existing(d, x) + Referencing(idss, x, base)
  {
    if idss == [] {
      assert Existing(d, x) + [] == Existing(d, x);
    } else {
      var n := |idss| - 1;
      var prev := AttachAll(d, idss[..n], base);
      var older := Referencing(idss[..n], x, base);
      var mine := Repeat(base + n, Count(idss[n], x));
      AttachAllUnfold(d, idss, base);
      AttachGet(prev, idss[n], base + n, x);
      AttachAllExisting(d, idss[..n], base, x);
      assert Referencing(idss, x, base) == older + mine;
      AppendChain(Existing(AttachAll(d, idss, base), x), Existing(prev, x), Existing(d, x), older, mine);
    }
  }

  /** e1 = e2 + mine and e2 = e3 + older give e1 = e3 + (older + mine). */
  lemma AppendChain<T>(e1: seq<T>, e2: seq<T>, e3: seq<T>, older: seq<T>, mine: seq<T>)
    requires e1 == e2 + mine && e2 == e3 + older
    ensures e1 == e3 + (older + mine)
  {
  }

  lemma AttachAllUnfold<K(!new)>(d: Dicts.Dict<K, seq<nat>>, idss: seq<seq<K>>, base: nat)
    requires idss != []
    ensures AttachAll(d, idss, base) == Attach(AttachAll(d, idss[..|idss| - 1], base), idss[|idss| - 1], base + |idss| - 1)
  {
  }

  /** A CVE that has an entry keeps one. */
  lemma {:induction false} AttachAllKeeps<K(!new)>(d: Dicts.Dict<K, seq<nat>>, idss: seq<seq<K>>, base: nat, x: K)
    ensures Dicts.Get(d, x).Some? ==> Dicts.Get(AttachAll(d, idss, base), x).Some?
  {
    if idss != [] && Dicts.Get(d, x).Some? {
      var n := |idss| - 1;
      var prev := AttachAll(d, idss[..n], base);
      AttachAllKeeps(d, idss[..n], base, x);
      assert Dicts.Get(Attach(prev, idss[n], base + n), x).Some? by {
        AttachGet(prev, idss[n], base + n, x);
      }
      AttachAllUnfold(d, idss, base);
    }
  }

  /** A CVE no hotpatch names is left as it was. */
  lemma {:induction false} AttachAllUntouched<K(!new)>(d: Dicts.Dict<K, seq<nat>>, idss: seq<seq<K>>, base: nat, x: K)
    requires forall k :: 0 <= k < |idss| ==> x !in idss[k]
    ensures Dicts.Get(AttachAll(d, idss, base), x) == Dicts.Get(d, x)
  {
    if idss != [] {
      var n := |idss| - 1;
      var prev := AttachAll(d, idss[..n], base);
      assert forall k :: 0 <= k < n ==> idss[..n][k] == idss[k];
      AttachAllUntouched(d, idss[..n], base, x);
      assert x !in idss[n];
      AttachOther(prev, idss[n], base + n, x);
    }
  }

  lemma {:induction false} ResetGet<K(!new)>(cves: Dicts.Dict<K, seq<nat>>, refs: seq<K>, x: K)
    ensures Dicts.Get(ResetCves(cves, refs), x) == if x in refs then Some([]) else Dicts.Get(cves, x)
  {
    if refs != [] {
      var n := |refs| - 1;
      ResetGet(cves, refs[..n], x);
      assert refs == refs[..n] + [refs[n]];
      if refs[n] != x {
        Dicts.PutOther(ResetCves(cves, refs[..n]), refs[n], [], x);
      }
    }
  }

  /** A position is referenced exactly when the hotpatch there names the CVE. */
  lemma {:induction false} ReferencingMembers<K(!new)>(idss: seq<seq<K>>, x: K, base: nat, i: nat)
    ensures i in Referencing(idss, x, base) <==> base <= i < base + |idss| && x in idss[i - base]
  {
    if idss != [] {
      var n := |idss| - 1;
      ReferencingMembers(idss[..n], x, base, i);
      CountPositive(idss[n], x);
      var older := Referencing(idss[..n], x, base);
      var mine := Repeat(base + n, Count(idss[n], x));
      assert Referencing(idss, x, base) == older + mine;
      assert i in older + mine <==> i in older || i in mine;
      assert i in mine <==> x in idss[n] && i == base + n by {
        if x in idss[n] {
          assert mine[0] == base + n;
        }
      }
      if base <= i < base + n {
        assert idss[..n][i - base] == idss[i - base];
      }
    }
  }

  /** The CVE lists of the hotpatches, in order. */
  function IdLists(hps: seq<HotpatchEntry>): (r: seq<seq<string>>)
    ensures |r| == |hps|
  {
    if hps == [] then [] else IdLists(hps[..|hps| - 1]) + [IdsOf(hps[|hps| - 1])]
  }

  lemma {:induction false} IdListsAt(hps: seq<HotpatchEntry>, k: nat)
    requires k < |hps|
    ensures IdLists(hps)[k] == IdsOf(hps[k])
  {
    var n := |hps| - 1;
    if k < n {
      IdListsAt(hps[..n], k);
    }
  }

  /** The CVE table after storing an advisory. */
  function StoredCves(cves: Dicts.Dict<string, seq<nat>>, refs: seq<string>, hps: seq<HotpatchEntry>, base: nat): Dicts.Dict<string, seq<nat>>
  {
    AttachAll(ResetCves(cves, refs), IdLists(hps), base)
  }

  /**
   * After storing an advisory, each of its references lists exactly the new
   * hotpatches that name it (whatever it held before is replaced), and every
   * other CVE is as it was.
   */
  lemma StoredCvesGet(cves: Dicts.Dict<string, seq<nat>>, refs: seq<string>, hps: seq<HotpatchEntry>, base: nat, x: string)
    requires Storable(refs, hps)
    ensures Dicts.Get(StoredCves(cves, refs, hps, base), x) ==
      if x in refs then Some(Referencing(IdLists(hps), x, base)) else Dicts.Get(cves, x)
  {
    var reset := ResetCves(cves, refs);
    var idss := IdLists(hps);
    ResetGet(cves, refs, x);
    AttachAllGet(reset, idss, base, x);
    if x in refs {
      assert Existing(reset, x) == [];
      assert [] + Referencing(idss, x, base) == Referencing(idss, x, base);
      var got := Dicts.Get(StoredCves(cves, refs, hps, base), x);
      assert got.Some? && got.value == Existing(StoredCves(cves, refs, hps, base), x);
    } else {
      forall k | 0 <= k < |idss| ensures x !in idss[k] {
        IdListsAt(hps, k);
      }
      AttachAllUntouched(reset, idss, base, x);
    }
  }

  // ---------------------------------------------------------------- the store's invariant

  /** Every hotpatch a CVE lists is a position in the hotpatch list. */
  ghost predicate CvesBelow<K(!new)>(cves: Dicts.Dict<K, seq<nat>>, n: nat)
  {
    forall e: (K, seq<nat>), k: nat :: e in cves && k in e.1 ==> k < n
  }

  /** Every hotpatch an advisory lists is a position in the hotpatch list. */
  ghost predicate AdvisoriesBelow(advisories: Dicts.Dict<string, Advisory>, n: nat)
  {
    forall e: (string, Advisory), k: nat :: e in advisories && k in e.1.hotpatches ==> k < n
  }

  lemma {:induction false} ExistingBelow<K(!new)>(d: Dicts.Dict<K, seq<nat>>, x: K, n: nat)
    requires CvesBelow(d, n)
    ensures forall k :: k in Existing<K, nat>(d, x) ==> k < n
  {
    Dicts.GetIn(d, x);
    if Dicts.Get(d, x).Some? {
      var e := (x, Dicts.Get(d, x).value);
      assert e in d;
      assert Existing<K, nat>(d, x) == e.1;
      forall k | k in e.1 ensures k < n {
        assert k in e.1;
      }
    } else {
      assert Existing<K, nat>(d, x) == [];
    }
  }

  lemma {:induction false} PutBelow<K(!new)>(d: Dicts.Dict<K, seq<nat>>, x: K, v: seq<nat>, n: nat)
    requires CvesBelow(d, n) && forall k :: k in v ==> k < n
    ensures CvesBelow(Dicts.Put(d, x, v), n)
  {
    forall e: (K, seq<nat>), k: nat | e in Dicts.Put(d, x, v) && k in e.1 ensures k < n {
      Dicts.PutIn(d, x, v, e);
      if e != (x, v) {
        assert e in d;
      }
    }
  }

  lemma {:induction false} ResetBelow<K(!new)>(cves: Dicts.Dict<K, seq<nat>>, refs: seq<K>, n: nat)
    requires CvesBelow(cves, n)
    ensures CvesBelow(ResetCves(cves, refs), n)
  {
    if refs != [] {
      var m := |refs| - 1;
      ResetBelow(cves, refs[..m], n);
      PutBelow(ResetCves(cves, refs[..m]), refs[m], [], n);
    }
  }

  lemma {:induction false} AttachBelow<K(!new)>(d: Dicts.Dict<K, seq<nat>>, ids: seq<K>, idx: nat, n: nat)
    requires CvesBelow(d, n) && idx < n
    ensures CvesBelow(Attach(d, ids, idx), n)
  {
    if ids != [] {
      var m := |ids| - 1;
      var prev := Attach(d, ids[..m], idx);
      AttachBelow(d, ids[..m], idx, n);
      ExistingBelow(prev, ids[m], n);
      PutBelow(prev, ids[m], Existing(prev, ids[m]) + [idx], n);
    }
  }

  lemma {:induction false} AttachAllBelow<K(!new)>(d: Dicts.Dict<K, seq<nat>>, idss: seq<seq<K>>, base: nat, n: nat)
    requires CvesBelow(d, n) && base + |idss| <= n
    ensures CvesBelow(AttachAll(d, idss, base), n)
  {
    if idss != [] {
      var m := |idss| - 1;
      AttachAllBelow(d, idss[..m], base, n);
      AttachBelow(AttachAll(d, idss[..m], base), idss[m], base + m, n);
    }
  }

  // ---------------------------------------------------------------- syscare

  /** One entry of the syscare list: a hotpatch's name and its status. */
  datatype SyscareEntry = SyscareEntry(name: string, status: string)

  /** `_hotpatch_state`: the status of each name, the last entry for a name winning. */
  function StatusTable(list: seq<SyscareEntry>): Dicts.Dict<string, string>
  {
    if list == [] then []
    else
      var n := |list| - 1;
      Dicts.Put(StatusTable(list[..n]), list[n].name, list[n].status)
  }

  /** `_get_hotpatch_status_in_syscare`: the empty string for a name syscare does not list. */
  function SyscareStatus(table: Dicts.Dict<string, string>, name: string): string
  {
    match Dicts.Get(table, name)
    case Some(s) => s
    case None => ""
  }

  /** The status of the last entry for the name, scanning the syscare list from its end. */
  function LastStatus(list: seq<SyscareEntry>, name: string): string
  {
    if list == [] then ""
    else if list[|list| - 1].name == name then list[|list| - 1].status
    else LastStatus(list[..|list| - 1], name)
  }

  /** The status lookup reports the last status syscare lists for the name, or "" when it lists none. */
  lemma {:induction false} SyscareStatusOf(list: seq<SyscareEntry>, name: string)
    ensures SyscareStatus(StatusTable(list), name) == LastStatus(list, name)
  {
    if list != [] {
      var n := |list| - 1;
      SyscareStatusOf(list[..n], name);
      if list[n].name != name {
        Dicts.PutOther(StatusTable(list[..n]), list[n].name, list[n].status, name);
      }
    }
  }

  /** A hotpatch with the state computed from the installed packages and syscare. */
  function Refreshed(h: Hotpatch, installed: seq<InstalledPkg>, table: Dicts.Dict<string, string>): Hotpatch
  {
    h.(state := StateOver(h.attrs, installed, SyscareStatus(table, h.attrs.syscareName)))
  }

  /** The positions the advisories list. */
  ghost function Reachable(advisories: Dicts.Dict<string, Advisory>): set<nat>
  {
    set e, k | e in advisories && k in e.1.hotpatches :: k
  }

  // ---------------------------------------------------------------- queries

  /** The hotpatches at the given positions (positions past the end are skipped). */
  function At(hs: seq<Hotpatch>, idxs: seq<nat>): (r: seq<Hotpatch>)
    ensures (forall k :: 0 <= k < |idxs| ==> idxs[k] < |hs|) ==>
      |r| == |idxs| && forall k :: 0 <= k < |idxs| ==> r[k] == hs[idxs[k]]
  {
    if idxs == [] then []
    else
      var n := |idxs| - 1;
      At(hs, idxs[..n]) + (if idxs[n] < |hs| then [hs[idxs[n]]] else [])
  }

  /** What one CVE id offers: nothing for an unknown CVE, otherwise its selection. */
  function CveOffer(hs: seq<Hotpatch>, cves: Dicts.Dict<string, seq<nat>>, id: string): Result<seq<string>, PyError>
  {
    match Dicts.Get(cves, id)
    case None => Ok([])
    case Some(idxs) => SelectForCve(At(hs, idxs))
  }

  /** Each requested CVE id with what it offers. */
  function OffersOf(hs: seq<Hotpatch>, cves: Dicts.Dict<string, seq<nat>>, ids: seq<string>): (r: seq<(string, Result<seq<string>, PyError>)>)
    ensures |r| == |ids| && forall i :: 0 <= i < |ids| ==> r[i] == (ids[i], CveOffer(hs, cves, ids[i]))
  {
    seq(|ids|, i requires 0 <= i < |ids| => (ids[i], CveOffer(hs, cves, ids[i])))
  }

  /** The result dict filled id by id; the first failing offer is the error. */
  function Gather(offers: seq<(string, Result<seq<string>, PyError>)>): Result<Dicts.Dict<string, seq<string>>, PyError>
  {
    if offers == [] then Ok([])
    else
      var n := |offers| - 1;
      var prev :- Gather(offers[..n]);
      var offer :- offers[n].1;
      Ok(Dicts.Put(prev, offers[n].0, offer))
  }

  /** `get_hotpatches_from_cve`. */
  function FromCves(hs: seq<Hotpatch>, cves: Dicts.Dict<string, seq<nat>>, ids: seq<string>): Result<Dicts.Dict<string, seq<string>>, PyError>
  {
    Gather(OffersOf(hs, cves, ids))
  }

  lemma {:induction false} GatherOk(offers: seq<(string, Result<seq<string>, PyError>)>)
    ensures Gather(offers).Ok? <==> forall i :: 0 <= i < |offers| ==> offers[i].1.Ok?
  {
    if offers != [] {
      var n := |offers| - 1;
      GatherOk(offers[..n]);
      assert forall i :: 0 <= i < n ==> offers[..n][i] == offers[i];
    }
  }

  /** Offers for the same id agree. */
  predicate Consistent(offers: seq<(string, Result<seq<string>, PyError>)>)
  {
    forall i, j :: 0 <= i < |offers| && 0 <= j < |offers| && offers[i].0 == offers[j].0 ==> offers[i].1 == offers[j].1
  }

  lemma {:induction false} GatherExact(offers: seq<(string, Result<seq<string>, PyError>)>)
    requires Gather(offers).Ok? && Consistent(offers)
    ensures Dicts.Keys(Gather(offers).value) == Dicts.FirstSeen(Dicts.Keys(offers))
    ensures forall i :: 0 <= i < |offers| ==>
      (offers[i].1.Ok? && Dicts.Get(Gather(offers).value, offers[i].0) == Some(offers[i].1.value))
  {
    if offers != [] {
      var n := |offers| - 1;
      var prev := Gather(offers[..n]).value;
      var k := offers[n].0;
      var v := offers[n].1.value;
      assert Gather(offers).value == Dicts.Put(prev, k, v);
      assert Consistent(offers[..n]) by {
        assert forall i :: 0 <= i < n ==> offers[..n][i] == offers[i];
      }
      GatherExact(offers[..n]);
      assert Dicts.Keys(Gather(offers).value) == Dicts.FirstSeen(Dicts.Keys(offers)) by {
        Dicts.PutKeys(prev, k, v);
        assert Dicts.Keys(offers)[..n] == Dicts.Keys(offers[..n]);
      }
      GatherStep(offers, prev);
    }
  }

  /** The last offer's put keeps every earlier offer's value. */
  lemma GatherStep(offers: seq<(string, Result<seq<string>, PyError>)>, prev: Dicts.Dict<string, seq<string>>)
    requires offers != [] && Consistent(offers) && offers[|offers| - 1].1.Ok?
    requires var init := offers[..|offers| - 1];
      forall i :: 0 <= i < |init| ==> (init[i].1.Ok? && Dicts.Get(prev, init[i].0) == Some(init[i].1.value))
    ensures forall i :: 0 <= i < |offers| ==>
      (offers[i].1.Ok? && Dicts.Get(Dicts.Put(prev, offers[|offers| - 1].0, offers[|offers| - 1].1.value), offers[i].0) == Some(offers[i].1.value))
  {
    var n := |offers| - 1;
    forall i | 0 <= i < |offers|
      ensures offers[i].1.Ok? && Dicts.Get(Dicts.Put(prev, offers[n].0, offers[n].1.value), offers[i].0) == Some(offers[i].1.value)
    {
      if i < n {
        assert offers[..n][i] == offers[i];
      }
      if offers[i].0 != offers[n].0 {
        Dicts.PutOther(prev, offers[n].0, offers[n].1.value, offers[i].0);
      }
    }
  }

  /**
   * The query by CVE fails exactly when the selection of one of the CVEs
   * fails. Otherwise its keys are the requested ids in order of first
   * appearance, and each maps to what that CVE offers.
   */
  lemma FromCvesExact(hs: seq<Hotpatch>, cves: Dicts.Dict<string, seq<nat>>, ids: seq<string>)
    ensures FromCves(hs, cves, ids).Ok? <==> forall i :: 0 <= i < |ids| ==> CveOffer(hs, cves, ids[i]).Ok?
    ensures FromCves(hs, cves, ids).Ok? ==>
      && Dicts.Keys(FromCves(hs, cves, ids).value) == Dicts.FirstSeen(ids)
      && forall i :: 0 <= i < |ids| ==>
           Dicts.Get(FromCves(hs, cves, ids).value, ids[i]) == Some(CveOffer(hs, cves, ids[i]).value)
  {
    var offers := OffersOf(hs, cves, ids);
    GatherOk(offers);
    if Gather(offers).Ok? {
      GatherExact(offers);
      assert Dicts.Keys(offers) == ids;
    }
  }

  lemma {:induction false} GatherErrSticks(offers: seq<(string, Result<seq<string>, PyError>)>, j: int)
    requires 0 <= j <= |offers| && Gather(offers[..j]).Err?
    ensures Gather(offers) == Gather(offers[..j])
  {
    if j < |offers| {
      var n := |offers| - 1;
      assert offers[..n][..j] == offers[..j];
      GatherErrSticks(offers[..n], j);
    } else {
      assert offers[..j] == offers;
    }
  }

  /** What one advisory id offers: nothing for an unknown advisory, otherwise its installable hotpatches. */
  function AdvisoryOffer(hs: seq<Hotpatch>, advisories: Dicts.Dict<string, Advisory>, id: string): seq<string>
  {
    match Dicts.Get(advisories, id)
    case None => []
    case Some(a) => AdvisoryHotpatches(At(hs, a.hotpatches))
  }

  /** `get_hotpatches_from_advisories`. */
  function FromAdvisories(hs: seq<Hotpatch>, advisories: Dicts.Dict<string, Advisory>, ids: seq<string>): Dicts.Dict<string, seq<string>>
  {
    if ids == [] then []
    else
      var n := |ids| - 1;
      Dicts.Put(FromAdvisories(hs, advisories, ids[..n]), ids[n], AdvisoryOffer(hs, advisories, ids[n]))
  }

  /** The query by advisory has the requested ids as keys, in order of first appearance, each mapped to what it offers. */
  lemma FromAdvisoriesExact(hs: seq<Hotpatch>, advisories: Dicts.Dict<string, Advisory>, ids: seq<string>)
    ensures Dicts.Keys(FromAdvisories(hs, advisories, ids)) == Dicts.FirstSeen(ids)
    ensures forall i :: 0 <= i < |ids| ==> Dicts.Get(FromAdvisories(hs, advisories, ids), ids[i]) == Some(AdvisoryOffer(hs, advisories, ids[i]))
  {
    FromAdvisoriesKeys(hs, advisories, ids);
    FromAdvisoriesGet(hs, advisories, ids);
  }

  lemma {:induction false} FromAdvisoriesKeys(hs: seq<Hotpatch>, advisories: Dicts.Dict<string, Advisory>, ids: seq<string>)
    ensures Dicts.Keys(FromAdvisories(hs, advisories, ids)) == Dicts.FirstSeen(ids)
  {
    if ids != [] {
      var n := |ids| - 1;
      var prev := FromAdvisories(hs, advisories, ids[..n]);
      var v := AdvisoryOffer(hs, advisories, ids[n]);
      FromAdvisoriesKeys(hs, advisories, ids[..n]);
      Dicts.PutKeys(prev, ids[n], v);
    }
  }

  lemma {:induction false} FromAdvisoriesGet(hs: seq<Hotpatch>, advisories: Dicts.Dict<string, Advisory>, ids: seq<string>)
    ensures forall i :: 0 <= i < |ids| ==> Dicts.Get(FromAdvisories(hs, advisories, ids), ids[i]) == Some(AdvisoryOffer(hs, advisories, ids[i]))
  {
    if ids != [] {
      var n := |ids| - 1;
      var prev := FromAdvisories(hs, advisories, ids[..n]);
      var v := AdvisoryOffer(hs, advisories, ids[n]);
      FromAdvisoriesGet(hs, advisories, ids[..n]);
      forall i | 0 <= i < |ids|
        ensures Dicts.Get(FromAdvisories(hs, advisories, ids), ids[i]) == Some(AdvisoryOffer(hs, advisories, ids[i]))
      {
        if ids[i] != ids[n] {
          assert ids[..n][i] == ids[i];
          Dicts.PutOther(prev, ids[n], v, ids[i]);
        }
      }
    }
  }

  /** The inner loop of `get_hotpatches_from_advisories`. */
  method InstallableNevras(hs: seq<Hotpatch>, idxs: seq<nat>) returns (r: seq<string>)
    requires forall k :: 0 <= k < |idxs| ==> idxs[k] < |hs|
    ensures r == AdvisoryHotpatches(At(hs, idxs))
  {
    r := [];
    for j := 0 to |idxs|
      invariant r == AdvisoryHotpatches(At(hs, idxs[..j]))
    {
      assert idxs[..j + 1][..j] == idxs[..j];
      var h := hs[idxs[j]];
      assert At(hs, idxs[..j + 1]) == At(hs, idxs[..j]) + [h];
      if h.state == Installable {
        r := r + [h.attrs.nevra];
      }
    }
    assert idxs[..|idxs|] == idxs;
  }

  // ---------------------------------------------------------------- the plugin object

  /**
   * `HotpatchUpdateInfo`: the hotpatches stored so far, the advisories and CVEs
   * by id (each listing its hotpatches as positions in the hotpatch list, so a
   * hotpatch shared by an advisory and its CVEs is one object), and the
   * syscare status of each hotpatch name.
   */
  class HotpatchUpdateInfo {
    var hotpatches: seq<Hotpatch>
    var advisories: Dicts.Dict<string, Advisory>
    var cves: Dicts.Dict<string, seq<nat>>
    var syscareState: Dicts.Dict<string, string>

    ghost predicate Valid()
      reads this
    {
      CvesBelow(cves, |hotpatches|) && AdvisoriesBelow(advisories, |hotpatches|)
    }

    constructor ()
      ensures Valid()
      ensures hotpatches == [] && advisories == [] && cves == [] && syscareState == []
    {
      hotpatches := [];
      advisories := [];
      cves := [];
      syscareState := [];
    }

    /**
     * `_store_advisory_info` for an advisory with this id, severity, reference
     * ids and hotpatches. A hotpatch without an id or naming a CVE outside the
     * references is a KeyError, and then nothing is stored.
     */
    method StoreAdvisoryInfo(advisoryId: string, severity: string, refs: seq<string>, hps: seq<HotpatchEntry>)
      returns (r: Result<(), PyError>)
      requires Valid()
      modifies this
      ensures Valid()
      ensures r.Ok? <==> Storable(refs, hps)
      ensures r.Err? ==> r.error == KeyError && unchanged(this)
      ensures r.Ok? ==>
        && hotpatches == old(hotpatches) + NewHotpatches(advisoryId, hps)
        && cves == StoredCves(old(cves), refs, hps, |old(hotpatches)|)
        && advisories == Dicts.Put(old(advisories), advisoryId, Advisory(severity, Range(|old(hotpatches)|, |hps|)))
        && syscareState == old(syscareState)
    {
      var ok := CheckStorable(refs, hps);
      if !ok {
        return Err(KeyError);
      }
      ghost var base := |hotpatches|;
      ghost var before := cves;
      var reset := ResetRefs(cves, refs);
      var added, attached, mine := AddHotpatches(hotpatches, reset, advisoryId, hps);
      hotpatches := added;
      cves := attached;
      advisories := Dicts.Put(advisories, advisoryId, Advisory(severity, mine));
      ResetBelow(before, refs, |hotpatches|);
      AttachAllBelow(reset, IdLists(hps), base, |hotpatches|);
      AdvisoryPutBelow(old(advisories), advisoryId, Advisory(severity, mine), |hotpatches|);
      return Ok(());
    }

    /** `_init_hotpatch_status_from_syscare` with the list syscare reports. */
    method InitStatusFromSyscare(list: seq<SyscareEntry>)
      requires Valid()
      modifies this
      ensures Valid()
      ensures syscareState == StatusTable(list)
      ensures hotpatches == old(hotpatches) && advisories == old(advisories) && cves == old(cves)
    {
      var table: Dicts.Dict<string, string> := [];
      for i := 0 to |list|
        invariant table == StatusTable(list[..i])
      {
        assert list[..i + 1][..i] == list[..i];
        table := Dicts.Put(table, list[i].name, list[i].status);
      }
      assert list[..|list|] == list;
      syscareState := table;
    }

    /**
     * `_init_hotpatch_state` with the installed packages: every hotpatch an
     * advisory lists gets the state its source package and syscare give it;
     * the others, and everything else, are left as they were.
     */
    method InitHotpatchState(installed: seq<InstalledPkg>)
      requires Valid()
      modifies this
      ensures Valid()
      ensures |hotpatches| == |old(hotpatches)|
      ensures forall k :: 0 <= k < |hotpatches| ==>
        hotpatches[k] == if k in Reachable(advisories) then Refreshed(old(hotpatches)[k], installed, syscareState) else old(hotpatches)[k]
      ensures advisories == old(advisories) && cves == old(cves) && syscareState == old(syscareState)
    {
      for i := 0 to |advisories|
        invariant Valid()
        invariant |hotpatches| == |old(hotpatches)|
        invariant advisories == old(advisories) && cves == old(cves) && syscareState == old(syscareState)
        invariant forall k :: 0 <= k < |hotpatches| ==>
          hotpatches[k] == if k in Reachable(advisories[..i]) then Refreshed(old(hotpatches)[k], installed, syscareState) else old(hotpatches)[k]
      {
        var idxs := advisories[i].1.hotpatches;
        assert advisories[i] in advisories;
        ghost var seen := Reachable(advisories[..i]);
        for j := 0 to |idxs|
          invariant Valid()
          invariant |hotpatches| == |old(hotpatches)|
          invariant advisories == old(advisories) && cves == old(cves) && syscareState == old(syscareState)
          invariant forall k :: 0 <= k < |hotpatches| ==>
            hotpatches[k] == if k in seen || k in idxs[..j] then Refreshed(old(hotpatches)[k], installed, syscareState) else old(hotpatches)[k]
        {
          var idx := idxs[j];
          assert idxs[j] in idxs;
          assert idxs[..j + 1] == idxs[..j] + [idx];
          var h := hotpatches[idx];
          var s := StateFor(h.attrs, installed, SyscareStatus(syscareState, h.attrs.syscareName));
          hotpatches := hotpatches[idx := h.(state := s)];
        }
        assert idxs[..|idxs|] == idxs;
        ReachableSnoc(advisories, i);
      }
      assert advisories[..|advisories|] == advisories;
    }

    /** The loop of `get_hotpatches_from_cve`: a CVE whose selection fails makes the whole query fail. */
    method GetHotpatchesFromCve(ids: seq<string>) returns (r: Result<Dicts.Dict<string, seq<string>>, PyError>)
      requires Valid()
      ensures r == FromCves(hotpatches, cves, ids)
    {
      ghost var offers := OffersOf(hotpatches, cves, ids);
      var mapping: Dicts.Dict<string, seq<string>> := [];
      for i := 0 to |ids|
        invariant Gather(offers[..i]) == Ok(mapping)
      {
        assert offers[..i + 1][..i] == offers[..i];
        assert offers[i] == (ids[i], CveOffer(hotpatches, cves, ids[i]));
        var known := Dicts.Get(cves, ids[i]);
        if known.None? {
          mapping := Dicts.Put(mapping, ids[i], []);
          continue;
        }
        var offer := SelectHotpatches(At(hotpatches, known.value));
        if offer.Err? {
          GatherErrSticks(offers, i + 1);
          return Err(offer.error);
        }
        mapping := Dicts.Put(mapping, ids[i], offer.value);
      }
      assert offers[..|ids|] == offers;
      return Ok(mapping);
    }

    /** The loop of `get_hotpatches_from_advisories`. */
    method GetHotpatchesFromAdvisories(ids: seq<string>) returns (r: Dicts.Dict<string, seq<string>>)
      requires Valid()
      ensures r == FromAdvisories(hotpatches, advisories, ids)
    {
      r := [];
      for i := 0 to |ids|
        invariant r == FromAdvisories(hotpatches, advisories, ids[..i])
      {
        assert ids[..i + 1][..i] == ids[..i];
        var known := Dicts.Get(advisories, ids[i]);
        if known.None? {
          r := Dicts.Put(r, ids[i], []);
          continue;
        }
        Dicts.GetIn(advisories, ids[i]);
        assert (ids[i], known.value) in advisories;
        assert forall k :: 0 <= k < |known.value.hotpatches| ==> known.value.hotpatches[k] in known.value.hotpatches;
        var nevras := InstallableNevras(hotpatches, known.value.hotpatches);
        r := Dicts.Put(r, ids[i], nevras);
      }
      assert ids[..|ids|] == ids;
    }
  }

  /** The loop over the references of `_store_advisory_info`. */
  method ResetRefs<K(==,!new)>(cves: Dicts.Dict<K, seq<nat>>, refs: seq<K>) returns (r: Dicts.Dict<K, seq<nat>>)
    ensures r == ResetCves(cves, refs)
  {
    r := cves;
    for i := 0 to |refs|
      invariant r == ResetCves(cves, refs[..i])
    {
      assert refs[..i + 1][..i] == refs[..i];
      r := Dicts.Put(r, refs[i], []);
    }
    assert refs[..|refs|] == refs;
  }

  /**
   * The loop over the hotpatches of `_store_advisory_info`: each is appended
   * to the hotpatch list and attached to the CVEs it names.
   */
  method AddHotpatches(hotpatches: seq<Hotpatch>, cves: Dicts.Dict<string, seq<nat>>, advisoryId: string, hps: seq<HotpatchEntry>)
    returns (hs: seq<Hotpatch>, attached: Dicts.Dict<string, seq<nat>>, mine: seq<nat>)
    ensures hs == hotpatches + NewHotpatches(advisoryId, hps)
    ensures attached == AttachAll(cves, IdLists(hps), |hotpatches|)
    ensures mine == Range(|hotpatches|, |hps|)
  {
    var base := |hotpatches|;
    ghost var news := NewHotpatches(advisoryId, hps);
    var idss := IdLists(hps);
    hs, attached, mine := hotpatches, cves, [];
    assert hs == hotpatches + news[..0];
    for k := 0 to |hps|
      invariant hs == hotpatches + news[..k]
      invariant attached == AttachAll(cves, idss[..k], base)
      invariant mine == Range(base, k)
      invariant |hs| == base + k
    {
      var ids := idss[k];
      var h := Hotpatch(hps[k].attrs, ids, advisoryId, Uninstallable);
      var idx := |hs|;
      AddStepHotpatches(hotpatches, advisoryId, hps, k);
      AttachAllSnoc(cves, idss, base, k);
      RangeSnoc(base, k);
      hs := hs + [h];
      mine := mine + [idx];
      attached := AttachIds(attached, ids, idx);
    }
    assert idss[..|hps|] == idss;
    assert news[..|hps|] == news;
  }

  /** One round of the loop of `AddHotpatches`, on the hotpatch list. */
  lemma AddStepHotpatches(hotpatches: seq<Hotpatch>, advisoryId: string, hps: seq<HotpatchEntry>, k: nat)
    requires k < |hps|
    ensures hotpatches + NewHotpatches(advisoryId, hps)[..k] + [Hotpatch(hps[k].attrs, IdLists(hps)[k], advisoryId, Uninstallable)]
         == hotpatches + NewHotpatches(advisoryId, hps)[..k + 1]
  {
    var news := NewHotpatches(advisoryId, hps);
    NewHotpatchesAt(advisoryId, hps, k);
    AppendAt(hotpatches, news, k, news[k]);
  }

  lemma AttachAllSnoc<K(!new)>(d: Dicts.Dict<K, seq<nat>>, idss: seq<seq<K>>, base: nat, k: int)
    requires 0 <= k < |idss|
    ensures AttachAll(d, idss[..k + 1], base) == Attach(AttachAll(d, idss[..k], base), idss[k], base + k)
  {
    assert idss[..k + 1][..k] == idss[..k];
  }

  lemma AppendAt<T>(pre: seq<T>, s: seq<T>, k: nat, x: T)
    requires k < |s| && x == s[k]
    ensures pre + s[..k] + [x] == pre + s[..k + 1]
  {
    assert s[..k + 1] == s[..k] + [x];
  }

  lemma RangeSnoc(base: nat, k: nat)
    ensures Range(base, k + 1) == Range(base, k) + [base + k]
  {
    assert Range(base, k + 1)[..k] == Range(base, k);
  }

  /** The loop over the CVEs one hotpatch names. */
  method AttachIds<K(==,!new)>(d: Dicts.Dict<K, seq<nat>>, ids: seq<K>, idx: nat) returns (r: Dicts.Dict<K, seq<nat>>)
    ensures r == Attach(d, ids, idx)
  {
    r := d;
    for j := 0 to |ids|
      invariant r == Attach(d, ids[..j], idx)
    {
      assert ids[..j + 1][..j] == ids[..j];
      r := Dicts.Put(r, ids[j], Existing(r, ids[j]) + [idx]);
    }
    assert ids[..|ids|] == ids;
  }

  lemma AdvisoryPutBelow(advisories: Dicts.Dict<string, Advisory>, id: string, a: Advisory, n: nat)
    requires AdvisoriesBelow(advisories, n) && forall k :: k in a.hotpatches ==> k < n
    ensures AdvisoriesBelow(Dicts.Put(advisories, id, a), n)
  {
    forall e: (string, Advisory), k: nat | e in Dicts.Put(advisories, id, a) && k in e.1.hotpatches ensures k < n {
      Dicts.PutIn(advisories, id, a, e);
      if e != (id, a) {
        assert e in advisories;
      }
    }
  }

  /** The check `_store_advisory_info` makes as it attaches hotpatches to CVEs, made up front. */
  method CheckStorable(refs: seq<string>, hps: seq<HotpatchEntry>) returns (ok: bool)
    ensures ok == Storable(refs, hps)
  {
    for k := 0 to |hps|
      invariant forall l :: 0 <= l < k ==> hps[l].id.Some? && forall r :: r in IdsOf(hps[l]) ==> r in refs
    {
      if hps[k].id.None? {
        return false;
      }
      var ids := IdsOf(hps[k]);
      for j := 0 to |ids|
        invariant forall l :: 0 <= l < j ==> ids[l] in refs
      {
        if ids[j] !in refs {
          return false;
        }
      }
    }
    return true;
  }

  lemma ReachableSnoc(advisories: Dicts.Dict<string, Advisory>, i: int)
    requires 0 <= i < |advisories|
    ensures forall k :: k in Reachable(advisories[..i + 1]) <==> k in Reachable(advisories[..i]) || k in advisories[i].1.hotpatches
  {
    assert advisories[..i + 1] == advisories[..i] + [advisories[i]];
  }
}
