/**
 * The security-advisory parser: a converted CVRF document (see XmlTree) becomes
 * the rows of the CVE table, the rows of the affected-package table and the
 * package documents of the search index.
 *
 * Dict lookups follow Python: a missing key is a KeyError, indexing something
 * that is not a dict is a TypeError, and calling a string method on a value that
 * is not a string is an AttributeError. KeyError and TypeError raised while the
 * vulnerabilities and product branches are read become ParseAdvisoryError; the
 * ones raised while the document header is read escape as they are.
 */
module Advisory {
  import opened Wrappers
  import Dicts
  import Strs
  import Seqs
  import opened XmlTree
  import opened Store
  import CveProxy
  import PkgDocMerge

  // ---------------------------------------------------------------- reading converted values

  /** `v[key]`. */
  function Index(v: Value, key: string): (r: Result<Value, PyError>)
    ensures r.Ok? <==> v.Obj? && key in Dicts.Keys(v.fields)
    ensures r.Err? ==> r.error == (if v.Obj? then KeyError else TypeError)
  {
    match v
    case Obj(fields) =>
      Dicts.GetDefined(fields, key);
      (match Dicts.Get(fields, key)
       case Some(x) => Ok(x)
       case None => Err(KeyError))
    case _ => Err(TypeError)
  }

  /** `v[k0][k1]...`: the lookups in order, the first failing one decides the error. */
  function Path(v: Value, keys: seq<string>): Result<Value, PyError>
    decreases keys
  {
    if keys == [] then Ok(v)
    else
      var x :- Index(v, keys[0]);
      Path(x, keys[1..])
  }

  /** `for x in v`: a list gives its items, a dict its keys, a string its characters. */
  function Iter(v: Value): (r: Result<seq<Value>, PyError>)
    ensures r.Err? <==> v.Null?
    ensures v.List? ==> r == Ok(v.items)
  {
    match v
    case List(items) => Ok(items)
    case Obj(fields) => Ok(seq(|fields|, i requires 0 <= i < |fields| => Str(fields[i].0)))
    case Str(s) => Ok(seq(|s|, i requires 0 <= i < |s| => Str([s[i]])))
    case Null => Err(TypeError)
  }

  /** A value used as a string. */
  function AsStr(v: Value): (r: Result<string, PyError>)
    ensures r.Ok? <==> v.Str?
  {
    match v
    case Str(s) => Ok(s)
    case _ => Err(TypeError)
  }

  /** Python truthiness. */
  predicate Truthy(v: Value)
  {
    match v
    case Null => false
    case Str(s) => s != ""
    case Obj(fields) => fields != []
    case List(items) => items != []
  }

  // ---------------------------------------------------------------- the affected component

  /** The text of the first note titled "Affected Component", or "" when there is none. */
  function AffectedComponent(notes: seq<Value>): Result<Value, PyError>
  {
    if notes == [] then Ok(Str(""))
    else
      var title :- Index(notes[0], "Title");
      if title == Str("Affected Component") then Index(notes[0], "text")
      else AffectedComponent(notes[1..])
  }

  /** With every note titled and none titled "Affected Component", the component is "". */
  lemma {:induction false} AffectedComponentAbsent(notes: seq<Value>)
    requires forall i :: 0 <= i < |notes| ==> Index(notes[i], "Title").Ok? && Index(notes[i], "Title").value != Str("Affected Component")
    ensures AffectedComponent(notes) == Ok(Str(""))
  {
    if notes != [] {
      AffectedComponentAbsent(notes[1..]);
    }
  }

  /** The first note titled "Affected Component", when every note before it has a title, gives its text. */
  lemma {:induction false} AffectedComponentFirst(notes: seq<Value>, k: nat)
    requires k < |notes| && Index(notes[k], "Title") == Ok(Str("Affected Component"))
    requires forall i :: 0 <= i < k ==> Index(notes[i], "Title").Ok? && Index(notes[i], "Title").value != Str("Affected Component")
    ensures AffectedComponent(notes) == Index(notes[k], "text")
  {
    if k > 0 {
      AffectedComponentFirst(notes[1..], k - 1);
    }
  }

  /** `affected_pkgs.split(",")`, after the check that the component is not empty. */
  function Packages(affected: Value): (r: Result<seq<string>, PyError>)
    ensures r.Err? <==> !(affected.Str? && affected.s != "")
    ensures r.Err? ==> r.error == (if Truthy(affected) then AttributeError else ParseAdvisoryError)
    ensures r.Ok? ==> Strs.Join(r.value, ",") == affected.s && forall i :: 0 <= i < |r.value| ==> ',' !in r.value[i]
  {
    if !Truthy(affected) then Err(ParseAdvisoryError)
    else match affected
      case Str(s) =>
        Strs.SplitJoin(s, ',');
        Strs.SplitPieces(s, ',');
        Ok(Strs.Split(s, ','))
      case _ => Err(AttributeError)
  }

  // ---------------------------------------------------------------- CVE rows

  /** The parsed CVE rows, affected-package rows and descriptions. */
  datatype CveInfo = CveInfo(rows: seq<CveProxy.CveRow>, pkgRows: seq<CveProxy.CvePkgRow>, descriptions: Dicts.Dict<string, Value>)

  /**
   * `cve_info["Notes"]["Note"].get("text", "")`: only a dict has `get`; its
   * text, of whatever shape, is taken as it is, and a missing one reads as "".
   */
  function DescriptionOf(note: Value): (r: Result<Value, PyError>)
    ensures r.Err? <==> !note.Obj?
    ensures r.Err? ==> r.error == AttributeError
    ensures note.Obj? ==> r == Ok(match Dicts.Get(note.fields, "text") case Some(v) => v case None => Str(""))
  {
    match note
    case Obj(fields) =>
      (match Dicts.Get(fields, "text")
       case None => Ok(Str(""))
       case Some(v) => Ok(v))
    case _ => Err(AttributeError)
  }

  /**
   * One vulnerability: its row (never needing a reboot) and its description.
   * Release date, severity and score are copied as they were read.
   */
  function CveEntry(cve: Value): (r: Result<(CveProxy.CveRow, Value), PyError>)
    ensures r.Ok? ==> !r.value.0.reboot
    ensures r.Ok? ==>
      && Index(cve, "CVE") == Ok(Str(r.value.0.cveId))
      && Index(cve, "ReleaseDate") == Ok(r.value.0.publishTime)
      && Path(cve, ["Threats", "Threat", "Description"]) == Ok(r.value.0.severity)
      && Path(cve, ["CVSSScoreSets", "ScoreSet", "BaseScore"]) == Ok(r.value.0.cvssScore)
      && Path(cve, ["Notes", "Note"]).Ok?
      && DescriptionOf(Path(cve, ["Notes", "Note"]).value) == Ok(r.value.1)
  {
    var idv :- Index(cve, "CVE");
    var date :- Index(cve, "ReleaseDate");
    var severity :- Path(cve, ["Threats", "Threat", "Description"]);
    var score :- Path(cve, ["CVSSScoreSets", "ScoreSet", "BaseScore"]);
    var note :- Path(cve, ["Notes", "Note"]);
    var description :- DescriptionOf(note);
    // the id is first hashed when the description is filed under it
    var id :- AsStr(idv);
    Ok((CveProxy.CveRow(id, date, severity, score, false), description))
  }

  /**
   * The id is hashed last: a note that is not a dict fails with AttributeError
   * whatever the id holds, a dict or list id included.
   */
  lemma NoteErrorBeforeId(cve: Value)
    requires Index(cve, "CVE").Ok? && Index(cve, "ReleaseDate").Ok?
    requires Path(cve, ["Threats", "Threat", "Description"]).Ok?
    requires Path(cve, ["CVSSScoreSets", "ScoreSet", "BaseScore"]).Ok?
    requires Path(cve, ["Notes", "Note"]).Ok? && !Path(cve, ["Notes", "Note"]).value.Obj?
    ensures CveEntry(cve) == Err(AttributeError)
  {
  }

  /** One affected-package row for the CVE per affected package, in order. */
  function PkgRowsFor(cveId: string, pkgs: seq<string>): (r: seq<CveProxy.CvePkgRow>)
    ensures |r| == |pkgs|
    ensures forall j :: 0 <= j < |pkgs| ==> r[j] == CveProxy.CvePkgRow(cveId, pkgs[j])
  {
    seq(|pkgs|, j requires 0 <= j < |pkgs| => CveProxy.CvePkgRow(cveId, pkgs[j]))
  }

  /** What one vulnerability adds to the parsed info. */
  function Added(acc: CveInfo, entry: (CveProxy.CveRow, Value), pkgs: seq<string>): CveInfo
  {
    CveInfo(acc.rows + [entry.0], acc.pkgRows + PkgRowsFor(entry.0.cveId, pkgs), Dicts.Put(acc.descriptions, entry.0.cveId, entry.1))
  }

  /** What reading one vulnerability gives. */
  type Entry = Result<(CveProxy.CveRow, Value), PyError>

  /** Every vulnerability read on its own. */
  function EntriesOf(cves: seq<Value>): (r: seq<Entry>)
    ensures |r| == |cves|
    ensures forall i :: 0 <= i < |cves| ==> r[i] == CveEntry(cves[i])
  {
    seq(|cves|, i requires 0 <= i < |cves| => CveEntry(cves[i]))
  }

  /** The fold of `parse_cve_info` over the entries; the first failing one decides the error. */
  function Collect(es: seq<Entry>, pkgs: seq<string>): Result<CveInfo, PyError>
  {
    if es == [] then Ok(CveInfo([], [], []))
    else
      var n := |es| - 1;
      var acc :- Collect(es[..n], pkgs);
      var entry :- es[n];
      Ok(Added(acc, entry, pkgs))
  }

  /** `parse_cve_info` as a function of the vulnerabilities. */
  function ParseCveInfoOf(cves: seq<Value>, pkgs: seq<string>): Result<CveInfo, PyError>
  {
    Collect(EntriesOf(cves), pkgs)
  }

  /** Once a prefix of the entries fails, the whole fold fails with the same error. */
  lemma {:induction false} CollectErrSticks(es: seq<Entry>, pkgs: seq<string>, k: nat)
    requires k <= |es| && Collect(es[..k], pkgs).Err?
    ensures Collect(es, pkgs) == Collect(es[..k], pkgs)
    decreases |es| - k
  {
    if k < |es| {
      var m := k + 1;
      assert es[..m][..k] == es[..k];
      CollectErrSticks(es, pkgs, m);
    } else {
      assert es[..k] == es;
    }
  }

  /** One more entry extends a successful fold, or fails it with its own error. */
  lemma CollectStep(es: seq<Entry>, pkgs: seq<string>, i: int, acc: CveInfo)
    requires 0 <= i < |es| && Collect(es[..i], pkgs) == Ok(acc)
    ensures Collect(es[..i + 1], pkgs) == if es[i].Err? then Err(es[i].error) else Ok(Added(acc, es[i].value, pkgs))
  {
    assert es[..i + 1][..i] == es[..i];
    assert es[..i + 1][i] == es[i];
  }

  /** The affected-package rows of one CVE, appended in package order. */
  method AppendPkgRows(pkgRows: seq<CveProxy.CvePkgRow>, cveId: string, pkgs: seq<string>) returns (r: seq<CveProxy.CvePkgRow>)
    ensures r == pkgRows + PkgRowsFor(cveId, pkgs)
  {
    r := pkgRows;
    var j := 0;
    while j < |pkgs|
      invariant 0 <= j <= |pkgs|
      invariant r == pkgRows + PkgRowsFor(cveId, pkgs[..j])
    {
      r := r + [CveProxy.CvePkgRow(cveId, pkgs[j])];
      j := j + 1;
    }
    assert pkgs[..j] == pkgs;
  }

  /** `parse_cve_info`: the loop over the vulnerabilities and, inside it, over the packages. */
  method ParseCveInfo(cves: seq<Value>, pkgs: seq<string>) returns (r: Result<CveInfo, PyError>)
    ensures r == ParseCveInfoOf(cves, pkgs)
  {
    ghost var es := EntriesOf(cves);
    var rows: seq<CveProxy.CveRow> := [];
    var pkgRows: seq<CveProxy.CvePkgRow> := [];
    var descriptions: Dicts.Dict<string, Value> := [];
    var i := 0;
    while i < |cves|
      invariant 0 <= i <= |cves|
      invariant Collect(es[..i], pkgs) == Ok(CveInfo(rows, pkgRows, descriptions))
    {
      CollectStep(es, pkgs, i, CveInfo(rows, pkgRows, descriptions));
      var entry := CveEntry(cves[i]);
      assert entry == es[i];
      if entry.Err? {
        CollectErrSticks(es, pkgs, i + 1);
        return Err(entry.error);
      }
      var row := entry.value.0;
      rows := rows + [row];
      pkgRows := AppendPkgRows(pkgRows, row.cveId, pkgs);
      descriptions := Dicts.Put(descriptions, row.cveId, entry.value.1);
      i := i + 1;
    }
    assert es[..i] == es;
    return Ok(CveInfo(rows, pkgRows, descriptions));
  }

  /** The fold succeeds exactly when every entry does. */
  lemma {:induction false} CollectOk(es: seq<Entry>, pkgs: seq<string>)
    ensures Collect(es, pkgs).Ok? <==> forall i :: 0 <= i < |es| ==> es[i].Ok?
  {
    if es != [] {
      var n := |es| - 1;
      CollectOk(es[..n], pkgs);
      assert forall i :: 0 <= i < n ==> es[..n][i] == es[i];
    }
  }

  /** The parse succeeds exactly when every vulnerability can be read. */
  lemma ParseCveInfoOk(cves: seq<Value>, pkgs: seq<string>)
    ensures ParseCveInfoOf(cves, pkgs).Ok? <==> forall i :: 0 <= i < |cves| ==> CveEntry(cves[i]).Ok?
  {
    CollectOk(EntriesOf(cves), pkgs);
  }

  /** The rows of a successful fold: one per entry, in order. */
  lemma {:induction false} CollectRows(es: seq<Entry>, pkgs: seq<string>)
    requires Collect(es, pkgs).Ok?
    ensures var info := Collect(es, pkgs).value;
      && |info.rows| == |es|
      && forall i :: 0 <= i < |es| ==> es[i].Ok? && info.rows[i] == es[i].value.0
  {
    if es != [] {
      var n := |es| - 1;
      CollectRows(es[..n], pkgs);
      var acc := Collect(es[..n], pkgs).value;
      var info := Collect(es, pkgs).value;
      assert info == Added(acc, es[n].value, pkgs);
      forall i | 0 <= i < n ensures es[i].Ok? && info.rows[i] == es[i].value.0 {
        assert es[..n][i] == es[i];
      }
    }
  }

  /** The package rows of the CVE rows, CVE by CVE. */
  function PkgRowsOf(rows: seq<CveProxy.CveRow>, pkgs: seq<string>): (r: seq<CveProxy.CvePkgRow>)
    ensures |r| == |rows| * |pkgs|
  {
    if rows == [] then []
    else
      var n := |rows| - 1;
      assert (n + 1) * |pkgs| == n * |pkgs| + |pkgs|;
      PkgRowsOf(rows[..n], pkgs) + PkgRowsFor(rows[n].cveId, pkgs)
  }

  /** The row at i * |pkgs| + j pairs CVE row i with package j. */
  lemma {:induction false} PkgRowsOfAt(rows: seq<CveProxy.CveRow>, pkgs: seq<string>, i: nat, j: nat)
    requires i < |rows| && j < |pkgs|
    ensures i * |pkgs| + j < |rows| * |pkgs|
    ensures PkgRowsOf(rows, pkgs)[i * |pkgs| + j] == CveProxy.CvePkgRow(rows[i].cveId, pkgs[j])
  {
    var n := |rows| - 1;
    var p := |pkgs|;
    var init := PkgRowsOf(rows[..n], pkgs);
    assert |rows| * p == n * p + p;
    if i < n {
      PkgRowsOfAt(rows[..n], pkgs, i, j);
      assert rows[..n][i] == rows[i];
    } else {
      assert i * p + j == |init| + j;
    }
  }

  /** The fold's package rows are those of its CVE rows. */
  lemma {:induction false} CollectPkgRows(es: seq<Entry>, pkgs: seq<string>)
    requires Collect(es, pkgs).Ok?
    ensures Collect(es, pkgs).value.pkgRows == PkgRowsOf(Collect(es, pkgs).value.rows, pkgs)
  {
    if es != [] {
      var n := |es| - 1;
      CollectPkgRows(es[..n], pkgs);
      var acc := Collect(es[..n], pkgs).value;
      var info := Collect(es, pkgs).value;
      assert info == Added(acc, es[n].value, pkgs);
      assert info.rows[..|acc.rows|] == acc.rows;
    }
  }

  /** A successful parse has one row per vulnerability, read from it and never needing a reboot. */
  lemma ParseCveInfoRows(cves: seq<Value>, pkgs: seq<string>)
    requires ParseCveInfoOf(cves, pkgs).Ok?
    ensures var info := ParseCveInfoOf(cves, pkgs).value;
      && |info.rows| == |cves|
      && forall i :: 0 <= i < |cves| ==> CveEntry(cves[i]).Ok? && info.rows[i] == CveEntry(cves[i]).value.0 && !info.rows[i].reboot
  {
    CollectRows(EntriesOf(cves), pkgs);
  }

  /**
   * A successful parse has, CVE row by CVE row, one affected-package row per
   * affected package (see PkgRowsOfAt for where each one sits).
   */
  lemma ParseCvePkgRows(cves: seq<Value>, pkgs: seq<string>)
    requires ParseCveInfoOf(cves, pkgs).Ok?
    ensures var info := ParseCveInfoOf(cves, pkgs).value;
      && info.pkgRows == PkgRowsOf(info.rows, pkgs)
      && |info.pkgRows| == |cves| * |pkgs|
  {
    CollectRows(EntriesOf(cves), pkgs);
    CollectPkgRows(EntriesOf(cves), pkgs);
  }

  /** The described CVEs are the rows' ids in order of first appearance. */
  lemma {:induction false} CollectDescriptions(es: seq<Entry>, pkgs: seq<string>)
    requires Collect(es, pkgs).Ok?
    ensures var info := Collect(es, pkgs).value;
      && Dicts.Keys(info.descriptions) == Dicts.FirstSeen(PkgDocMerge.KeysOf(info.rows, RowId))
      && Dicts.UniqueKeys(info.descriptions)
  {
    if es != [] {
      var n := |es| - 1;
      CollectDescriptions(es[..n], pkgs);
      var acc := Collect(es[..n], pkgs).value;
      var entry := es[n].value;
      var info := Collect(es, pkgs).value;
      assert info == Added(acc, entry, pkgs);
      assert PkgDocMerge.KeysOf(info.rows, RowId)[..|acc.rows|] == PkgDocMerge.KeysOf(acc.rows, RowId);
      Dicts.PutKeys(acc.descriptions, entry.0.cveId, entry.1);
      Dicts.PutKeepsUnique(acc.descriptions, entry.0.cveId, entry.1);
    }
  }

  function RowId(r: CveProxy.CveRow): string
  {
    r.cveId
  }

  function DocCve(d: PkgDoc): string
  {
    d.cveId
  }

  // ---------------------------------------------------------------- package documents

  /** os version -> arch -> package files, in order of first appearance. */
  type OsDict = Dicts.Dict<string, Dicts.Dict<string, seq<string>>>

  /** `os_dict[os_version][arch].append(text)` on the nested defaultdicts. */
  function AddPkg(d: OsDict, os: string, arch: string, text: string): OsDict
  {
    var archs := match Dicts.Get(d, os) case Some(a) => a case None => [];
    var files := match Dicts.Get(archs, arch) case Some(f) => f case None => [];
    Dicts.Put(d, os, Dicts.Put(archs, arch, files + [text]))
  }

  /** `s.split(":", maxsplit)[-1]`: what follows the first maxsplit colons (or the last one, when there are fewer). */
  function AfterColons(s: string, maxsplit: nat): string
    decreases maxsplit
  {
    if maxsplit == 0 then s
    else match AfterFirst(s, ':')
      case None => s
      case Some(rest) => AfterColons(rest, maxsplit - 1)
  }

  /** The text after the first c, if there is one. */
  function AfterFirst(s: string, c: char): (r: Option<string>)
    ensures r.None? <==> c !in s
    ensures r.Some? ==> |r.value| < |s|
  {
    if s == [] then None
    else if s[0] == c then Some(s[1..])
    else AfterFirst(s[1..], c)
  }

  lemma {:induction false} AfterFirstPrefix(a: string, c: char, rest: string)
    requires c !in a
    ensures AfterFirst(a + [c] + rest, c) == Some(rest)
  {
    if a != [] {
      assert (a + [c] + rest)[1..] == a[1..] + [c] + rest;
      AfterFirstPrefix(a[1..], c, rest);
    } else {
      assert a + [c] + rest == [c] + rest;
    }
  }

  /** The os version of a CPE name is what follows its third colon. */
  lemma OsVersionOfCpe(part: string, vendor: string, product: string, version: string)
    requires ':' !in part && ':' !in vendor && ':' !in product
    ensures AfterColons(part + ":" + vendor + ":" + product + ":" + version, 3) == version
  {
    var s := part + ":" + vendor + ":" + product + ":" + version;
    var s1 := vendor + ":" + product + ":" + version;
    var s2 := product + ":" + version;
    assert s == part + [':'] + s1;
    assert s1 == vendor + [':'] + s2;
    assert s2 == product + [':'] + version;
    AfterFirstPrefix(part, ':', s1);
    AfterFirstPrefix(vendor, ':', s2);
    AfterFirstPrefix(product, ':', version);
    calc {
      AfterColons(s, 3);
      AfterColons(s1, 2);
      AfterColons(s2, 1);
      AfterColons(version, 0);
    }
  }

  /**
   * One package entry: its os version, the branch's arch and its package file.
   * The arch is first hashed here, after the CPE split and before the text is read.
   */
  function PkgEntry(info: Value, archv: Value): Result<(string, string, string), PyError>
  {
    var cpev :- Index(info, "CPE");
    var cpe :- if cpev.Str? then Ok(cpev.s) else Err(AttributeError);
    var arch :- AsStr(archv);
    var textv :- Index(info, "text");
    var text :- AsStr(textv);
    Ok((AfterColons(cpe, 3), arch, text))
  }

  /** The package entries of one branch, in order. */
  function AddInfos(d: OsDict, infos: seq<Value>, archv: Value): Result<OsDict, PyError>
  {
    if infos == [] then Ok(d)
    else
      var n := |infos| - 1;
      var prev :- AddInfos(d, infos[..n], archv);
      var e :- PkgEntry(infos[n], archv);
      Ok(AddPkg(prev, e.0, e.1, e.2))
  }

  /** Whether a branch is the product-name branch. */
  predicate IsProductName(b: Value)
  {
    Index(b, "Type") == Ok(Str("Product Name"))
  }

  /** One branch: skipped when it names the product, otherwise its packages filed under its arch. */
  function BranchStep(d: OsDict, b: Value): (r: Result<OsDict, PyError>)
    ensures IsProductName(b) ==> r == Ok(d)
  {
    var t :- Index(b, "Type");
    if t == Str("Product Name") then Ok(d)
    else
      var archv :- Index(b, "Name");
      var infov :- Index(b, "FullProductName");
      if infov.Obj? then
        var e :- PkgEntry(infov, archv);
        Ok(AddPkg(d, e.0, e.1, e.2))
      else
        var infos :- Iter(infov);
        AddInfos(d, infos, archv)
  }

  /** A branch with no package entries files nothing, and its arch name is never hashed. */
  lemma EmptyBranchIgnoresArch(d: OsDict, b: Value)
    requires Index(b, "Type").Ok? && !IsProductName(b) && Index(b, "Name").Ok?
    requires Index(b, "FullProductName") == Ok(List([]))
    ensures BranchStep(d, b) == Ok(d)
  {
  }

  /** A CPE that is not a string fails with AttributeError before the arch name is hashed. */
  lemma CpeErrorBeforeArch(d: OsDict, b: Value)
    requires Index(b, "Type").Ok? && !IsProductName(b) && Index(b, "Name").Ok?
    requires Index(b, "FullProductName").Ok? && Index(b, "FullProductName").value.Obj?
    requires Index(Index(b, "FullProductName").value, "CPE").Ok?
    requires !Index(Index(b, "FullProductName").value, "CPE").value.Str?
    ensures BranchStep(d, b) == Err(AttributeError)
  {
  }

  /** The os dict after all branches; the first failing one decides the error. */
  function OsDictOf(branches: seq<Value>): Result<OsDict, PyError>
  {
    if branches == [] then Ok([])
    else
      var n := |branches| - 1;
      var d :- OsDictOf(branches[..n]);
      BranchStep(d, branches[n])
  }

  /** Product-name branches contribute nothing: leaving them out gives the same result. */
  lemma {:induction false} ProductNameIgnored(branches: seq<Value>)
    ensures OsDictOf(branches) == OsDictOf(Seqs.Filter(branches, IsProductName, false))
  {
    if branches != [] {
      var n := |branches| - 1;
      var init := branches[..n];
      var kept := Seqs.Filter(init, IsProductName, false);
      ProductNameIgnored(init);
      if IsProductName(branches[n]) {
        assert Seqs.Filter(branches, IsProductName, false) == kept;
      } else {
        assert Seqs.Filter(branches, IsProductName, false) == kept + [branches[n]];
        assert (kept + [branches[n]])[..|kept|] == kept;
      }
    }
  }

  /** Every dict of the os dict, inner and outer, has distinct keys. */
  predicate NestedUnique(d: OsDict)
  {
    Dicts.UniqueKeys(d) && forall e :: e in d ==> Dicts.UniqueKeys(e.1)
  }

  lemma AddPkgUnique(d: OsDict, os: string, arch: string, text: string)
    requires NestedUnique(d)
    ensures NestedUnique(AddPkg(d, os, arch, text))
  {
    var archs := match Dicts.Get(d, os) case Some(a) => a case None => [];
    var files := match Dicts.Get(archs, arch) case Some(f) => f case None => [];
    var inner := Dicts.Put(archs, arch, files + [text]);
    Dicts.GetIn(d, os);
    Dicts.PutKeepsUnique(archs, arch, files + [text]);
    Dicts.PutKeepsUnique(d, os, inner);
    forall e | e in AddPkg(d, os, arch, text) ensures Dicts.UniqueKeys(e.1) {
      Dicts.PutIn(d, os, inner, e);
    }
  }

  lemma {:induction false} AddInfosUnique(d: OsDict, infos: seq<Value>, archv: Value)
    requires NestedUnique(d) && AddInfos(d, infos, archv).Ok?
    ensures NestedUnique(AddInfos(d, infos, archv).value)
  {
    if infos != [] {
      var n := |infos| - 1;
      AddInfosUnique(d, infos[..n], archv);
      var e := PkgEntry(infos[n], archv).value;
      AddPkgUnique(AddInfos(d, infos[..n], archv).value, e.0, e.1, e.2);
    }
  }

  lemma BranchStepUnique(d: OsDict, b: Value)
    requires NestedUnique(d) && BranchStep(d, b).Ok?
    ensures NestedUnique(BranchStep(d, b).value)
  {
    var t := Index(b, "Type").value;
    if t != Str("Product Name") {
      var archv := Index(b, "Name").value;
      var infov := Index(b, "FullProductName").value;
      if infov.Obj? {
        var e := PkgEntry(infov, archv).value;
        AddPkgUnique(d, e.0, e.1, e.2);
      } else {
        AddInfosUnique(d, Iter(infov).value, archv);
      }
    }
  }

  lemma {:induction false} OsDictUnique(branches: seq<Value>)
    requires OsDictOf(branches).Ok?
    ensures NestedUnique(OsDictOf(branches).value)
  {
    if branches != [] {
      var n := |branches| - 1;
      OsDictUnique(branches[..n]);
      BranchStepUnique(OsDictOf(branches[..n]).value, branches[n]);
    }
  }

  /** The os list of the documents: one entry per os version, every one updated at the publish time. */
  function OsListOf(d: OsDict, publishTime: Value): (r: seq<OsInfo>)
    ensures |r| == |d|
  {
    seq(|d|, i requires 0 <= i < |d| => OsInfo(d[i].0, publishTime, ArchListOf(d[i].1)))
  }

  function ArchListOf(archs: Dicts.Dict<string, seq<string>>): (r: seq<ArchInfo>)
    ensures |r| == |archs|
  {
    seq(|archs|, j requires 0 <= j < |archs| => ArchInfo(archs[j].0, archs[j].1))
  }

  /** One document per described CVE, all sharing the one os list. */
  function DocsOf(descriptions: Dicts.Dict<string, Value>, osList: seq<OsInfo>): (r: seq<PkgDoc>)
    ensures |r| == |descriptions|
  {
    seq(|descriptions|, i requires 0 <= i < |descriptions| => PkgDoc(descriptions[i].0, descriptions[i].1, osList))
  }

  /** `parse_arch_info` as a function of the branches. */
  function ParseArchInfoOf(branches: seq<Value>, descriptions: Dicts.Dict<string, Value>, publishTime: Value): Result<seq<PkgDoc>, PyError>
  {
    var d :- OsDictOf(branches);
    Ok(DocsOf(descriptions, OsListOf(d, publishTime)))
  }

  /**
   * `parse_arch_info`: the loop over the branches, then the loops that lay out
   * the os list and the documents.
   */
  method ParseArchInfo(branches: seq<Value>, descriptions: Dicts.Dict<string, Value>, publishTime: Value) returns (r: Result<seq<PkgDoc>, PyError>)
    ensures r == ParseArchInfoOf(branches, descriptions, publishTime)
  {
    var d: OsDict := [];
    var i := 0;
    while i < |branches|
      invariant 0 <= i <= |branches|
      invariant OsDictOf(branches[..i]) == Ok(d)
    {
      assert branches[..i + 1][..i] == branches[..i];
      var step := BranchStep(d, branches[i]);
      if step.Err? {
        OsDictErrSticks(branches, i + 1);
        return Err(step.error);
      }
      d := step.value;
      i := i + 1;
    }
    assert branches[..i] == branches;
    var osList: seq<OsInfo> := [];
    var k := 0;
    while k < |d|
      invariant 0 <= k <= |d|
      invariant osList == OsListOf(d[..k], publishTime)
    {
      osList := osList + [OsInfo(d[k].0, publishTime, ArchListOf(d[k].1))];
      k := k + 1;
    }
    assert d[..k] == d;
    var docs: seq<PkgDoc> := [];
    var m := 0;
    while m < |descriptions|
      invariant 0 <= m <= |descriptions|
      invariant docs == DocsOf(descriptions[..m], osList)
    {
      docs := docs + [PkgDoc(descriptions[m].0, descriptions[m].1, osList)];
      m := m + 1;
    }
    assert descriptions[..m] == descriptions;
    return Ok(docs);
  }

  /** Once a prefix of the branches fails, the whole fold fails with the same error. */
  lemma {:induction false} OsDictErrSticks(branches: seq<Value>, k: nat)
    requires k <= |branches| && OsDictOf(branches[..k]).Err?
    ensures OsDictOf(branches) == OsDictOf(branches[..k])
    decreases |branches| - k
  {
    if k < |branches| {
      assert branches[..k + 1][..k] == branches[..k];
      OsDictErrSticks(branches, k + 1);
    } else {
      assert branches[..k] == branches;
    }
  }

  /**
   * The documents: one per described CVE with its description, all sharing one
   * os list that follows the os dict, every os entry updated at the publish
   * time; the os versions and each os's arch names are distinct, so the
   * documents meet what merging with stored documents expects.
   */
  lemma ParseArchInfoDocs(branches: seq<Value>, descriptions: Dicts.Dict<string, Value>, publishTime: Value)
    requires ParseArchInfoOf(branches, descriptions, publishTime).Ok?
    ensures var docs := ParseArchInfoOf(branches, descriptions, publishTime).value;
      var d := OsDictOf(branches).value;
      && |docs| == |descriptions|
      && (forall i :: 0 <= i < |docs| ==> docs[i].cveId == descriptions[i].0 && docs[i].description == descriptions[i].1)
      && (forall i :: 0 <= i < |docs| ==> docs[i].osList == docs[0].osList)
      && (forall i :: 0 <= i < |docs| ==> PkgDocMerge.KeysOf(docs[i].osList, PkgDocMerge.OsVersion) == Dicts.Keys(d))
      && (forall i, k :: 0 <= i < |docs| && 0 <= k < |docs[i].osList| ==> docs[i].osList[k].updateTime == publishTime)
      && forall i :: 0 <= i < |docs| ==> PkgDocMerge.WellKeyed(docs[i])
  {
    var d := OsDictOf(branches).value;
    OsDictUnique(branches);
    var osList := OsListOf(d, publishTime);
    assert PkgDocMerge.KeysOf(osList, PkgDocMerge.OsVersion) == Dicts.Keys(d);
    forall k | 0 <= k < |osList|
      ensures Dicts.Distinct(PkgDocMerge.KeysOf(osList[k].archList, PkgDocMerge.ArchName))
    {
      assert d[k] in d;
      assert PkgDocMerge.KeysOf(osList[k].archList, PkgDocMerge.ArchName) == Dicts.Keys(d[k].1);
    }
  }

  // ---------------------------------------------------------------- the whole advisory

  /** The three outputs of the parser. */
  datatype Parsed = Parsed(cveRows: seq<CveProxy.CveRow>, pkgRows: seq<CveProxy.CvePkgRow>, docs: seq<PkgDoc>)

  /** What the header of the document gives: publish time, packages, branches, vulnerabilities. */
  datatype Header = Header(publishTime: Value, pkgs: seq<string>, branches: Value, vulnerabilities: Value)

  /** The header lookups; their errors escape unconverted. */
  function HeaderOf(cvrf: Value): Result<Header, PyError>
  {
    var publishTime :- Path(cvrf, ["cvrfdoc", "DocumentTracking", "RevisionHistory", "Revision", "Date"]);
    var notesv :- Path(cvrf, ["cvrfdoc", "DocumentNotes", "Note"]);
    var notes :- Iter(notesv);
    var affected :- AffectedComponent(notes);
    var pkgs :- Packages(affected);
    var branches :- Path(cvrf, ["cvrfdoc", "ProductTree", "Branch"]);
    var vulnerabilities :- Path(cvrf, ["cvrfdoc", "Vulnerability"]);
    Ok(Header(publishTime, pkgs, branches, vulnerabilities))
  }

  /** A single vulnerability dict is treated as a list of one. */
  function VulnList(v: Value): Result<seq<Value>, PyError>
  {
    if v.Obj? then Ok([v]) else Iter(v)
  }

  lemma SingleVulnerability(fields: Dicts.Dict<string, Value>)
    ensures VulnList(Obj(fields)) == VulnList(List([Obj(fields)])) == Ok([Obj(fields)])
  {
  }

  /** The body that runs inside the handler. */
  function Body(h: Header): Result<Parsed, PyError>
  {
    var cves :- VulnList(h.vulnerabilities);
    var info :- ParseCveInfoOf(cves, h.pkgs);
    var branches :- Iter(h.branches);
    var docs :- ParseArchInfoOf(branches, info.descriptions, h.publishTime);
    Ok(Parsed(info.rows, info.pkgRows, docs))
  }

  /** `except (KeyError, TypeError): raise ParseAdvisoryError`. */
  function Converted(e: PyError): (r: PyError)
    ensures r != KeyError && r != TypeError
    ensures e != KeyError && e != TypeError ==> r == e
  {
    if e == KeyError || e == TypeError then ParseAdvisoryError else e
  }

  /** `parse_cvrf_dict`. */
  function ParseCvrfDict(cvrf: Value): Result<Parsed, PyError>
  {
    var h :- HeaderOf(cvrf);
    match Body(h)
    case Ok(p) => Ok(p)
    case Err(e) => Err(Converted(e))
  }

  /** Without an affected component the advisory is refused, once the header before it reads. */
  lemma NoAffectedComponent(cvrf: Value)
    requires Path(cvrf, ["cvrfdoc", "DocumentTracking", "RevisionHistory", "Revision", "Date"]).Ok?
    requires Path(cvrf, ["cvrfdoc", "DocumentNotes", "Note"]).Ok?
    requires Iter(Path(cvrf, ["cvrfdoc", "DocumentNotes", "Note"]).value).Ok?
    requires var notes := Iter(Path(cvrf, ["cvrfdoc", "DocumentNotes", "Note"]).value).value;
      forall i :: 0 <= i < |notes| ==> Index(notes[i], "Title").Ok? && Index(notes[i], "Title").value != Str("Affected Component")
    ensures ParseCvrfDict(cvrf) == Err(ParseAdvisoryError)
  {
    AffectedComponentAbsent(Iter(Path(cvrf, ["cvrfdoc", "DocumentNotes", "Note"]).value).value);
  }

  /** Errors raised while the vulnerabilities and branches are read never escape as KeyError or TypeError. */
  lemma BodyErrorsConverted(cvrf: Value)
    requires HeaderOf(cvrf).Ok?
    ensures ParseCvrfDict(cvrf).Err? ==> ParseCvrfDict(cvrf).error != KeyError && ParseCvrfDict(cvrf).error != TypeError
    ensures ParseCvrfDict(cvrf).Ok? <==> Body(HeaderOf(cvrf).value).Ok?
  {
  }

  /**
   * A parsed advisory has one CVE row per vulnerability, one affected-package row
   * per vulnerability and affected package, and one document per distinct CVE,
   * in order of first appearance.
   */
  lemma ParseCvrfDictShape(cvrf: Value)
    requires ParseCvrfDict(cvrf).Ok?
    ensures var h := HeaderOf(cvrf).value;
      var p := ParseCvrfDict(cvrf).value;
      && VulnList(h.vulnerabilities).Ok?
      && |p.cveRows| == |VulnList(h.vulnerabilities).value|
      && |p.pkgRows| == |p.cveRows| * |h.pkgs|
      && PkgDocMerge.KeysOf(p.docs, DocCve) == Dicts.FirstSeen(PkgDocMerge.KeysOf(p.cveRows, RowId))
  {
    var h := HeaderOf(cvrf).value;
    var cves := VulnList(h.vulnerabilities).value;
    var info := ParseCveInfoOf(cves, h.pkgs).value;
    ParseCveInfoRows(cves, h.pkgs);
    ParseCvePkgRows(cves, h.pkgs);
    CollectDescriptions(EntriesOf(cves), h.pkgs);
    var branches := Iter(h.branches).value;
    ParseArchInfoDocs(branches, info.descriptions, h.publishTime);
    var p := ParseCvrfDict(cvrf).value;
    assert PkgDocMerge.KeysOf(p.docs, DocCve) == Dicts.Keys(info.descriptions);
  }
}
