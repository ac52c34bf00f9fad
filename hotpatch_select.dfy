/**
 * The hotpatch decisions of the dnf hotpatch plugin that do not depend on the
 * plugin object: a hotpatch's state from the installed packages and syscare,
 * and which hotpatches a CVE or an advisory offers.
 */
module HotpatchSelect {
  import opened Wrappers
  import Dicts
  import Seqs
  import XmlTree

  /** UNINSTALLABLE = 0, INSTALLED = 1, INSTALLABLE = 2. */
  datatype State = Uninstallable | Installed | Installable

  /**
   * What the hotpatch base class derives from a package entry: the source
   * package's name, version and release, the source package, the hotpatch name,
   * the name syscare knows it by and its nevra.
   */
  datatype PkgAttrs = PkgAttrs(srcName: string, srcVersion: string, srcRelease: string, srcPkg: string,
                               hotpatchName: string, syscareName: string, nevra: string)

  /** A hotpatch: its attributes, the CVEs its id names, its advisory and its state. */
  datatype Hotpatch = Hotpatch(attrs: PkgAttrs, cves: seq<string>, advisory: string, state: State)

  /** An installed package as the package query reports it. */
  datatype InstalledPkg = InstalledPkg(name: string, version: string, release: string)

  // ---------------------------------------------------------------- state

  /** `'%s-%s' % (version, release)`. */
  function Vere(version: string, release: string): string
  {
    version + "-" + release
  }

  /** An installed package of the hotpatch's source package at the same version-release. */
  predicate Matches(p: InstalledPkg, a: PkgAttrs)
  {
    p.name == a.srcName && Vere(p.version, p.release) == Vere(a.srcVersion, a.srcRelease)
  }

  /** The syscare statuses that count as installed. */
  predicate Active(status: string)
  {
    status == "ACTIVED" || status == "ACCEPTED"
  }

  /**
   * The state `_init_hotpatch_state` leaves: UNINSTALLABLE, rewritten by every
   * matching installed package to INSTALLED or INSTALLABLE as the syscare status
   * says.
   */
  function StateOver(a: PkgAttrs, installed: seq<InstalledPkg>, status: string): State
  {
    if installed == [] then Uninstallable
    else
      var n := |installed| - 1;
      if Matches(installed[n], a) then (if Active(status) then Installed else Installable)
      else StateOver(a, installed[..n], status)
  }

  /**
   * A hotpatch is INSTALLED exactly when some installed package matches it and
   * syscare reports it active or accepted, INSTALLABLE when one matches and
   * syscare does not, and UNINSTALLABLE when none matches.
   */
  lemma {:induction false} StateOverExact(a: PkgAttrs, installed: seq<InstalledPkg>, status: string)
    ensures StateOver(a, installed, status) ==
      if exists i :: 0 <= i < |installed| && Matches(installed[i], a) then
        (if Active(status) then Installed else Installable)
      else Uninstallable
  {
    if installed != [] {
      var n := |installed| - 1;
      StateOverExact(a, installed[..n], status);
      if !Matches(installed[n], a) {
        if exists i :: 0 <= i < |installed| && Matches(installed[i], a) {
          var i :| 0 <= i < |installed| && Matches(installed[i], a);
          assert installed[..n][i] == installed[i];
        }
        assert forall i :: 0 <= i < n ==> installed[..n][i] == installed[i];
      }
    }
  }

  /** The loop over the installed packages for one hotpatch. */
  method StateFor(a: PkgAttrs, installed: seq<InstalledPkg>, status: string) returns (s: State)
    ensures s == StateOver(a, installed, status)
  {
    s := Uninstallable;
    for i := 0 to |installed|
      invariant s == StateOver(a, installed[..i], status)
    {
      assert installed[..i + 1][..i] == installed[..i];
      if Vere(installed[i].version, installed[i].release) != Vere(a.srcVersion, a.srcRelease) || installed[i].name != a.srcName {
        continue;
      } else if Active(status) {
        s := Installed;
      } else {
        s := Installable;
      }
    }
    assert installed[..|installed|] == installed;
  }

  // ---------------------------------------------------------------- hotpatch numbers

  predicate IsDigit(c: char)
  {
    '0' <= c <= '9'
  }

  function DropNonDigits(s: string): (r: string)
    ensures r == [] || IsDigit(r[0])
  {
    if s == [] || IsDigit(s[0]) then s else DropNonDigits(s[1..])
  }

  function TakeDigits(s: string): (r: string)
    ensures forall i :: 0 <= i < |r| ==> IsDigit(r[i])
    ensures s != [] && IsDigit(s[0]) ==> r != []
  {
    if s != [] && IsDigit(s[0]) then [s[0]] + TakeDigits(s[1..]) else []
  }

  function DigitsValue(ds: string): nat
  {
    if ds == [] then 0
    else
      var n := |ds| - 1;
      DigitsValue(ds[..n]) * 10 + (if IsDigit(ds[n]) then ds[n] as int - '0' as int else 0)
  }

  /** `int(re.findall("\d+", name)[0])`: the first run of digits, or nothing when the name has none. */
  function HpNumber(name: string): Option<nat>
  {
    var run := TakeDigits(DropNonDigits(name));
    if run == [] then None else Some(DigitsValue(run))
  }

  /** A name has a number exactly when it holds a digit. */
  lemma HpNumberNone(name: string)
    ensures HpNumber(name).None? <==> forall i :: 0 <= i < |name| ==> !IsDigit(name[i])
  {
    NoDigitsDrop(name);
  }

  lemma {:induction false} NoDigitsDrop(s: string)
    ensures DropNonDigits(s) == [] <==> forall i :: 0 <= i < |s| ==> !IsDigit(s[i])
  {
    if s != [] && !IsDigit(s[0]) {
      NoDigitsDrop(s[1..]);
      assert forall i :: 1 <= i < |s| ==> s[i] == s[1..][i - 1];
    }
  }

  predicate Numbered(h: Hotpatch)
  {
    HpNumber(h.attrs.hotpatchName).Some?
  }

  function Number(h: Hotpatch): nat
    requires Numbered(h)
  {
    HpNumber(h.attrs.hotpatchName).value
  }

  // ---------------------------------------------------------------- picking per source package

  /**
   * `sorted(..., key=number, reverse=True)[0]`: the sort is stable, so this is
   * the first hotpatch with the largest number.
   */
  function Best(g: seq<Hotpatch>): (r: Hotpatch)
    requires g != [] && forall k :: 0 <= k < |g| ==> Numbered(g[k])
    ensures r in g
  {
    if |g| == 1 then g[0]
    else
      var n := |g| - 1;
      var b := Best(g[..n]);
      assert b in g;
      if Number(g[n]) > Number(b) then g[n] else b
  }

  /** The pick has the largest number of the group, and every hotpatch before it a smaller one. */
  lemma BestIndex(g: seq<Hotpatch>) returns (i: int)
    requires g != [] && forall k :: 0 <= k < |g| ==> Numbered(g[k])
    ensures 0 <= i < |g| && Best(g) == g[i]
    ensures forall k :: 0 <= k < |g| ==> Number(g[k]) <= Number(g[i])
    ensures forall k :: 0 <= k < i ==> Number(g[k]) < Number(g[i])
  {
    i := FirstMaxIndex(g, NumberOr0);
    BestFirstMax(g);
  }

  /** The number of a hotpatch, or 0 for a name without digits. */
  function NumberOr0(h: Hotpatch): nat
  {
    if Numbered(h) then Number(h) else 0
  }

  /** The first element with the largest key. */
  function FirstMax<T>(g: seq<T>, f: T -> nat): T
    requires g != []
  {
    if |g| == 1 then g[0]
    else
      var n := |g| - 1;
      var b := FirstMax(g[..n], f);
      if f(g[n]) > f(b) then g[n] else b
  }

  lemma {:induction false} BestFirstMax(g: seq<Hotpatch>)
    requires g != [] && forall k :: 0 <= k < |g| ==> Numbered(g[k])
    ensures Best(g) == FirstMax(g, NumberOr0)
  {
    if |g| > 1 {
      var n := |g| - 1;
      var init := g[..n];
      assert forall k :: 0 <= k < n ==> init[k] == g[k];
      BestFirstMax(init);
      var b := Best(init);
      assert b in g;
      assert Numbered(b);
    }
  }

  /** The first maximum has the largest key, and every element before it a smaller one. */
  lemma {:induction false} FirstMaxIndex<T>(g: seq<T>, f: T -> nat) returns (i: int)
    requires g != []
    ensures 0 <= i < |g| && FirstMax(g, f) == g[i]
    ensures forall k :: 0 <= k < |g| ==> f(g[k]) <= f(g[i])
    ensures forall k :: 0 <= k < i ==> f(g[k]) < f(g[i])
  {
    if |g| == 1 {
      i := 0;
    } else {
      var n := |g| - 1;
      var init := g[..n];
      assert forall k :: 0 <= k < n ==> init[k] == g[k];
      i := FirstMaxIndex(init, f);
      if f(g[n]) > f(g[i]) {
        i := n;
      }
    }
  }

  /** The source package of a hotpatch. */
  function SrcPkg(h: Hotpatch): string
  {
    h.attrs.srcPkg
  }

  /** The hotpatches of one source package, in order. */
  function OfSrc(hs: seq<Hotpatch>, src: string): (r: seq<Hotpatch>)
    ensures forall h :: h in r <==> h in hs && SrcPkg(h) == src
  {
    if hs == [] then []
    else
      var n := |hs| - 1;
      assert hs == hs[..n] + [hs[n]];
      OfSrc(hs[..n], src) + (if SrcPkg(hs[n]) == src then [hs[n]] else [])
  }

  /** `setdefault(src_pkg, []).append(...)`: one group per source package, in order of first appearance. */
  function GroupBySrc(hs: seq<Hotpatch>): Dicts.Dict<string, seq<Hotpatch>>
  {
    if hs == [] then []
    else
      var n := |hs| - 1;
      var d := GroupBySrc(hs[..n]);
      Dicts.Put(d, SrcPkg(hs[n]), Existing(d, SrcPkg(hs[n])) + [hs[n]])
  }

  /** The list a key holds, or the empty one `setdefault` would start. */
  function Existing<K(==,!new), T(!new)>(d: Dicts.Dict<K, seq<T>>, k: K): seq<T>
  {
    match Dicts.Get(d, k)
    case Some(v) => v
    case None => []
  }

  /** Each source package's group holds its hotpatches in order. */
  lemma {:induction false} GroupBySrcGet(hs: seq<Hotpatch>, src: string)
    ensures Dicts.Get(GroupBySrc(hs), src) == if OfSrc(hs, src) == [] then None else Some(OfSrc(hs, src))
  {
    if hs != [] {
      var n := |hs| - 1;
      var d := GroupBySrc(hs[..n]);
      GroupBySrcGet(hs[..n], src);
      assert GroupBySrc(hs) == Dicts.Put(d, SrcPkg(hs[n]), Existing(d, SrcPkg(hs[n])) + [hs[n]]);
      if SrcPkg(hs[n]) == src {
        if OfSrc(hs[..n], src) == [] {
          assert OfSrc(hs, src) == [hs[n]];
        }
      } else {
        assert OfSrc(hs, src) == OfSrc(hs[..n], src);
        Dicts.PutOther(d, SrcPkg(hs[n]), Existing(d, SrcPkg(hs[n])) + [hs[n]], src);
      }
    }
  }

  /** The source packages of the hotpatches, in order. */
  function Srcs(hs: seq<Hotpatch>): (r: seq<string>)
    ensures |r| == |hs| && forall i :: 0 <= i < |hs| ==> r[i] == SrcPkg(hs[i])
  {
    seq(|hs|, i requires 0 <= i < |hs| => SrcPkg(hs[i]))
  }

  /** The groups are keyed by the source packages in order of first appearance. */
  lemma {:induction false} GroupBySrcKeys(hs: seq<Hotpatch>)
    ensures Dicts.Keys(GroupBySrc(hs)) == Dicts.FirstSeen(Srcs(hs))
  {
    if hs != [] {
      var n := |hs| - 1;
      var d := GroupBySrc(hs[..n]);
      GroupBySrcKeys(hs[..n]);
      assert Srcs(hs)[..n] == Srcs(hs[..n]);
      Dicts.PutKeys(d, SrcPkg(hs[n]), Existing(d, SrcPkg(hs[n])) + [hs[n]]);
    }
  }

  /** The pick of every group in order; a group with an unnumbered hotpatch is an IndexError. */
  function PicksOf(groups: Dicts.Dict<string, seq<Hotpatch>>): Result<seq<string>, XmlTree.PyError>
  {
    if groups == [] then Ok([])
    else
      var n := |groups| - 1;
      var prev :- PicksOf(groups[..n]);
      var g := groups[n].1;
      if g != [] && forall k :: 0 <= k < |g| ==> Numbered(g[k]) then Ok(prev + [Best(g).attrs.nevra])
      else Err(XmlTree.IndexError)
  }

  predicate IsInstallable(h: Hotpatch)
  {
    h.state == Installable
  }

  /** Whether some hotpatch of the CVE is installed. */
  predicate AnyInstalled(hs: seq<Hotpatch>)
  {
    exists k :: 0 <= k < |hs| && hs[k].state == Installed
  }

  /**
   * What `get_hotpatches_from_cve` lists for a CVE with these hotpatches:
   * nothing when one of them is installed, otherwise per source package the
   * installable hotpatch with the largest number.
   */
  function SelectForCve(hs: seq<Hotpatch>): Result<seq<string>, XmlTree.PyError>
  {
    if AnyInstalled(hs) then Ok([])
    else PicksOf(GroupBySrc(Seqs.Filter(hs, IsInstallable, true)))
  }

  /** A successful pick list has one entry per group, the group's best. */
  lemma {:induction false} PicksOfExact(groups: Dicts.Dict<string, seq<Hotpatch>>)
    requires PicksOf(groups).Ok?
    ensures |PicksOf(groups).value| == |groups|
    ensures forall i :: 0 <= i < |groups| ==>
      groups[i].1 != [] && (forall k :: 0 <= k < |groups[i].1| ==> Numbered(groups[i].1[k]))
      && PicksOf(groups).value[i] == Best(groups[i].1).attrs.nevra
  {
    if groups != [] {
      var n := |groups| - 1;
      var init := groups[..n];
      PicksOfExact(init);
      assert PicksOf(groups).value == PicksOf(init).value + [Best(groups[n].1).attrs.nevra];
      assert forall i :: 0 <= i < n ==> init[i] == groups[i];
    }
  }

  /**
   * The nevra belongs to an installable hotpatch of the source package whose
   * number is the largest among the installable hotpatches of that package.
   */
  predicate BestOfSrc(hs: seq<Hotpatch>, src: string, nevra: string)
  {
    exists h :: h in hs && h.state == Installable && SrcPkg(h) == src && h.attrs.nevra == nevra && Numbered(h) &&
      forall g :: g in hs && g.state == Installable && SrcPkg(g) == src ==> Numbered(g) && Number(g) <= Number(h)
  }

  /**
   * A CVE with an installed hotpatch offers nothing. Otherwise it offers one
   * nevra per source package of its installable hotpatches, in order of first
   * appearance, the one with the largest number; uninstallable hotpatches are
   * never offered.
   */
  lemma SelectForCveExact(hs: seq<Hotpatch>)
    requires SelectForCve(hs).Ok?
    ensures AnyInstalled(hs) ==> SelectForCve(hs).value == []
    ensures !AnyInstalled(hs) ==>
      var srcs := Dicts.FirstSeen(Srcs(Seqs.Filter(hs, IsInstallable, true)));
      |SelectForCve(hs).value| == |srcs| &&
      forall i :: 0 <= i < |srcs| ==> BestOfSrc(hs, srcs[i], SelectForCve(hs).value[i])
  {
    if !AnyInstalled(hs) {
      var inst := Seqs.Filter(hs, IsInstallable, true);
      Seqs.FilterSplit(hs, IsInstallable);
      var groups := GroupBySrc(inst);
      GroupBySrcKeys(inst);
      PicksOfExact(groups);
      var r := SelectForCve(hs).value;
      forall i | 0 <= i < |r|
        ensures BestOfSrc(hs, groups[i].0, r[i])
      {
        GroupPickIsBest(hs, inst, groups, i);
      }
    }
  }

  /** The pick of a group is the best installable hotpatch of its source package. */
  lemma GroupPickIsBest(hs: seq<Hotpatch>, inst: seq<Hotpatch>, groups: Dicts.Dict<string, seq<Hotpatch>>, i: int)
    requires inst == Seqs.Filter(hs, IsInstallable, true) && groups == GroupBySrc(inst)
    requires Dicts.Keys(groups) == Dicts.FirstSeen(Srcs(inst))
    requires 0 <= i < |groups|
    requires groups[i].1 != [] && forall k :: 0 <= k < |groups[i].1| ==> Numbered(groups[i].1[k])
    ensures BestOfSrc(hs, groups[i].0, Best(groups[i].1).attrs.nevra)
  {
    Seqs.FilterSplit(hs, IsInstallable);
    var src := groups[i].0;
    var g := groups[i].1;
    GroupBySrcGet(inst, src);
    assert Dicts.Get(groups, src) == Some(g) by {
      assert Dicts.Keys(groups)[i] == src;
      Dicts.UniqueGet(groups, i);
    }
    var b := BestIndex(g);
    assert g[b] in inst;
    forall x | x in hs && x.state == Installable && SrcPkg(x) == src
      ensures Numbered(x) && Number(x) <= Number(g[b])
    {
      assert x in g;
      var k :| 0 <= k < |g| && g[k] == x;
    }
  }

  /**
   * `sorted(hotpatches, key=number, reverse=True)[0]` over one group: every key
   * is computed, so one hotpatch name without digits (or an empty group) is an
   * IndexError.
   */
  method PickBest(g: seq<Hotpatch>) returns (r: Result<Hotpatch, XmlTree.PyError>)
    ensures r.Ok? <==> g != [] && forall k :: 0 <= k < |g| ==> Numbered(g[k])
    ensures r.Ok? ==> r.value == Best(g)
    ensures r.Err? ==> r.error == XmlTree.IndexError
  {
    if g == [] {
      return Err(XmlTree.IndexError);
    }
    for k := 0 to |g|
      invariant forall l :: 0 <= l < k ==> Numbered(g[l])
    {
      if HpNumber(g[k].attrs.hotpatchName).None? {
        return Err(XmlTree.IndexError);
      }
    }
    var best := g[0];
    for k := 1 to |g|
      invariant best == Best(g[..k])
    {
      assert g[..k + 1][..k] == g[..k];
      if Number(g[k]) > Number(best) {
        best := g[k];
      }
    }
    assert g[..|g|] == g;
    return Ok(best);
  }

  /** Grouping one more hotpatch appends it to its source package's group. */
  lemma GroupBySrcSnoc(hs: seq<Hotpatch>, h: Hotpatch)
    ensures GroupBySrc(hs + [h]) == Dicts.Put(GroupBySrc(hs), SrcPkg(h), Existing(GroupBySrc(hs), SrcPkg(h)) + [h])
  {
    assert (hs + [h])[..|hs|] == hs;
  }

  /**
   * The pass over one CVE's hotpatches: whether one is installed, and the
   * installable ones grouped by source package.
   */
  method GroupInstallable(hs: seq<Hotpatch>) returns (fixed: bool, groups: Dicts.Dict<string, seq<Hotpatch>>)
    ensures fixed == AnyInstalled(hs)
    ensures groups == GroupBySrc(Seqs.Filter(hs, IsInstallable, true))
  {
    groups := [];
    fixed := false;
    for i := 0 to |hs|
      invariant fixed == AnyInstalled(hs[..i])
      invariant groups == GroupBySrc(Seqs.Filter(hs[..i], IsInstallable, true))
    {
      ghost var before := Seqs.Filter(hs[..i], IsInstallable, true);
      assert hs[..i + 1][..i] == hs[..i];
      assert Seqs.Filter(hs[..i + 1], IsInstallable, true) == before + (if IsInstallable(hs[i]) then [hs[i]] else []);
      assert AnyInstalled(hs[..i + 1]) == (AnyInstalled(hs[..i]) || hs[i].state == Installed) by {
        assert forall k :: 0 <= k < i ==> hs[..i + 1][k] == hs[..i][k];
        assert hs[..i + 1][i] == hs[i];
      }
      if hs[i].state == Installed {
        fixed := true;
      }
      if hs[i].state == Installable {
        GroupBySrcSnoc(before, hs[i]);
        groups := Dicts.Put(groups, SrcPkg(hs[i]), Existing(groups, SrcPkg(hs[i])) + [hs[i]]);
      } else {
        assert Seqs.Filter(hs[..i + 1], IsInstallable, true) == before;
      }
    }
    assert hs[..|hs|] == hs;
  }

  /** The body of the loop of `get_hotpatches_from_cve` for one CVE's hotpatches. */
  method SelectHotpatches(hs: seq<Hotpatch>) returns (r: Result<seq<string>, XmlTree.PyError>)
    ensures r == SelectForCve(hs)
  {
    var fixed, groups := GroupInstallable(hs);
    if fixed {
      return Ok([]);
    }
    var picks: seq<string> := [];
    for j := 0 to |groups|
      invariant PicksOf(groups[..j]) == Ok(picks)
    {
      PicksOfStep(groups, j, picks);
      var best := PickBest(groups[j].1);
      if best.Err? {
        PicksErrSticks(groups, j + 1);
        return Err(best.error);
      }
      picks := picks + [best.value.attrs.nevra];
    }
    assert groups[..|groups|] == groups;
    return Ok(picks);
  }

  /** One more group extends a successful pick list by its best, or fails it. */
  lemma PicksOfStep(groups: Dicts.Dict<string, seq<Hotpatch>>, j: int, picks: seq<string>)
    requires 0 <= j < |groups| && PicksOf(groups[..j]) == Ok(picks)
    ensures var g := groups[j].1;
      PicksOf(groups[..j + 1]) ==
        if g != [] && forall k :: 0 <= k < |g| ==> Numbered(g[k]) then Ok(picks + [Best(g).attrs.nevra])
        else Err(XmlTree.IndexError)
  {
    assert groups[..j + 1][..j] == groups[..j];
    assert groups[..j + 1][j] == groups[j];
  }

  /** Once a group fails, the whole pick list fails with the same error. */
  lemma {:induction false} PicksErrSticks(groups: Dicts.Dict<string, seq<Hotpatch>>, j: int)
    requires 0 <= j <= |groups| && PicksOf(groups[..j]).Err?
    ensures PicksOf(groups) == PicksOf(groups[..j])
  {
    if j < |groups| {
      var n := |groups| - 1;
      assert groups[..n][..j] == groups[..j];
      PicksErrSticks(groups[..n], j);
    } else {
      assert groups[..j] == groups;
    }
  }

  // ---------------------------------------------------------------- advisories

  /** The nevra of an installable hotpatch. */
  function InstallableNevra(h: Hotpatch): Option<string>
  {
    if h.state == Installable then Some(h.attrs.nevra) else None
  }

  /** What `get_hotpatches_from_advisories` lists for an advisory: its installable hotpatches' nevras, in order. */
  function AdvisoryHotpatches(hs: seq<Hotpatch>): seq<string>
  {
    Seqs.FilterMap(hs, InstallableNevra)
  }

  /** The advisory's list is exactly the installable hotpatches, in order. */
  lemma AdvisoryHotpatchesExact(hs: seq<Hotpatch>) returns (idx: seq<int>)
    ensures |idx| == |AdvisoryHotpatches(hs)|
    ensures forall k :: 0 <= k < |idx| ==> 0 <= idx[k] < |hs| && hs[idx[k]].state == Installable && AdvisoryHotpatches(hs)[k] == hs[idx[k]].attrs.nevra
    ensures forall k, l :: 0 <= k < l < |idx| ==> idx[k] < idx[l]
    ensures forall i :: 0 <= i < |hs| ==> (i in idx <==> hs[i].state == Installable)
  {
    idx := Seqs.FilterMapIndices(hs, InstallableNevra);
  }
}
