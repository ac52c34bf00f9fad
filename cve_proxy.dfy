/**
 * The parts of the CVE proxy with logic of their own: the severity overview,
 * the all-or-nothing review-status update, the fix-action summary, the saving
 * of a security advisory (split into new and known CVEs, package rows and
 * package documents) and the related-CVE lookup. The rows an SQL query returns
 * are parameters where the store does not hold the columns they come from.
 */
module CveProxy {
  import opened Types
  import opened Wrappers
  import Dicts
  import Strs
  import Seqs
  import opened Store
  import PkgDocMerge
  import XmlTree

  // ---------------------------------------------------------------- _get_processed_cve_overview

  /** The severities the overview always reports. */
  const Severities: seq<string> := ["Critical", "High", "Medium", "Low", "Unknown"]

  /** The overview before any row is read: every severity at 0. */
  function EmptyOverview(): (r: map<string, nat>)
    ensures forall s :: s in r <==> s in Severities
  {
    map s | s in Severities :: 0
  }

  /**
   * One pass over the (severity, count) rows of the overview query: a row of a
   * reported severity sets that severity's count, any other row is skipped.
   */
  function Overview(rows: seq<(string, nat)>): map<string, nat>
  {
    if rows == [] then EmptyOverview()
    else
      var n := |rows| - 1;
      var r := Overview(rows[..n]);
      if rows[n].0 in r then r[rows[n].0 := rows[n].1] else r
  }

  /** The count of the last row for severity s, if there is one. */
  function LastCount(rows: seq<(string, nat)>, s: string): Option<nat>
  {
    if rows == [] then None
    else
      var n := |rows| - 1;
      if rows[n].0 == s then Some(rows[n].1) else LastCount(rows[..n], s)
  }

  /**
   * The overview has exactly the five severities as keys, whatever the rows; each
   * holds the count of the last row for it, or 0 when no row names it.
   */
  lemma {:induction false} OverviewExact(rows: seq<(string, nat)>)
    ensures forall s :: s in Overview(rows) <==> s in Severities
    ensures forall s :: s in Severities ==>
      Overview(rows)[s] == match LastCount(rows, s) case Some(c) => c case None => 0
  {
    if rows != [] {
      OverviewExact(rows[..|rows| - 1]);
    }
  }

  /** `_get_processed_cve_overview`: the loop over the query rows. */
  method GetProcessedCveOverview(rows: seq<(string, nat)>) returns (result: map<string, nat>)
    ensures result == Overview(rows)
  {
    result := map["Critical" := 0, "High" := 0, "Medium" := 0, "Low" := 0, "Unknown" := 0];
    assert result == EmptyOverview();
    for i := 0 to |rows|
      invariant result == Overview(rows[..i])
    {
      assert rows[..i + 1][..i] == rows[..i];
      var (severity, count) := rows[i];
      if severity in result {
        result := result[severity := count];
      }
    }
    assert rows[..|rows|] == rows;
  }

  // ---------------------------------------------------------------- _update_cve_status

  /** Every (username, c) row with c listed takes the new status; the other rows keep theirs. */
  function WithCveStatus(userCves: map<(UserName, CveId), string>, username: UserName, cveList: seq<CveId>, status: string)
    : map<(UserName, CveId), string>
  {
    map k | k in userCves :: if k.0 == username && k.1 in cveList then status else userCves[k]
  }

  /**
   * set_cve_status: nothing changes unless the transaction can run and the user
   * has a row for every listed CVE; then every listed row takes the status.
   */
  function UpdateCveStatusOf(t: Tables, username: UserName, cveList: seq<CveId>, status: string): (Code, Tables)
  {
    if !t.online then (DatabaseUpdateError, t)
    else if exists c :: c in cveList && (username, c) !in t.userCves then (NoData, t)
    else (Success, t.(userCves := WithCveStatus(t.userCves, username, cveList, status)))
  }

  /**
   * The update is all or nothing: NO_DATA exactly when a listed CVE has no row for
   * the user, and then the store is as it was; on success every listed row holds
   * the new status, no row is added or removed, and every other row and table is
   * as it was.
   */
  lemma UpdateCveStatusAllOrNothing(t: Tables, username: UserName, cveList: seq<CveId>, status: string)
    ensures var (code, t') := UpdateCveStatusOf(t, username, cveList, status);
      && (code == Success || code == NoData || code == DatabaseUpdateError)
      && (code != Success ==> t' == t)
      && (code == NoData <==> t.online && exists c :: c in cveList && (username, c) !in t.userCves)
      && (code == Success ==>
            && t' == t.(userCves := t'.userCves)
            && t'.userCves.Keys == t.userCves.Keys
            && (forall c :: c in cveList ==> t'.userCves[(username, c)] == status)
            && (forall k :: k in t.userCves && !(k.0 == username && k.1 in cveList) ==> t'.userCves[k] == t.userCves[k]))
  {
  }

  /** set_cve_status with `_update_cve_status` inside its transaction. */
  method UpdateCveStatus(db: Database, username: UserName, cveList: seq<CveId>, status: string) returns (code: Code)
    modifies db
    ensures (code, db.Snapshot()) == UpdateCveStatusOf(old(db.Snapshot()), username, cveList, status)
  {
    if !db.online {
      return DatabaseUpdateError;
    }
    var failList := set c | c in cveList && (username, c) !in db.userCves;
    assert failList != {} <==> exists c :: c in cveList && (username, c) !in db.userCves by {
      if exists c :: c in cveList && (username, c) !in db.userCves {
        var c :| c in cveList && (username, c) !in db.userCves;
        assert c in failList;
      }
    }
    if failList != {} {
      return NoData;
    }
    db.userCves := WithCveStatus(db.userCves, username, cveList, status);
    code := Success;
  }

  // ---------------------------------------------------------------- _get_processed_cve_action

  /** One row of the action query: a CVE, one affected package and the CVE's reboot flag. */
  datatype ActionRow = ActionRow(cveId: CveId, package: string, reboot: bool)

  /** What the action summary holds for one CVE. */
  datatype CveAction = CveAction(reboot: bool, package: string)

  /** The CVE of every row, in order (`succeed_list`). */
  function RowIds(rows: seq<ActionRow>): (r: seq<CveId>)
    ensures |r| == |rows|
    ensures forall i :: 0 <= i < |rows| ==> r[i] == rows[i].cveId
  {
    seq(|rows|, i requires 0 <= i < |rows| => rows[i].cveId)
  }

  /**
   * One pass over the rows: the first row of a CVE records its reboot flag and
   * package, each later row of that CVE appends "," and its package.
   */
  function Actions(rows: seq<ActionRow>): Dicts.Dict<CveId, CveAction>
  {
    if rows == [] then []
    else
      var n := |rows| - 1;
      var d := Actions(rows[..n]);
      Dicts.Put(d, rows[n].cveId, ActionOf(d, rows[n]))
  }

  /** The packages of the rows of CVE c, in order. */
  function PackagesOf(rows: seq<ActionRow>, c: CveId): seq<string>
  {
    if rows == [] then []
    else
      var n := |rows| - 1;
      PackagesOf(rows[..n], c) + (if rows[n].cveId == c then [rows[n].package] else [])
  }

  /** The first row of CVE c. */
  function FirstRow(rows: seq<ActionRow>, c: CveId): Option<ActionRow>
  {
    if rows == [] then None
    else
      var n := |rows| - 1;
      match FirstRow(rows[..n], c)
      case Some(r) => Some(r)
      case None => if rows[n].cveId == c then Some(rows[n]) else None
  }

  /** A CVE has packages, and a first row, exactly when some row names it. */
  lemma {:induction false} RowsOfCve(rows: seq<ActionRow>, c: CveId)
    ensures PackagesOf(rows, c) != [] <==> c in RowIds(rows)
    ensures FirstRow(rows, c).Some? <==> c in RowIds(rows)
    ensures FirstRow(rows, c).Some? ==> FirstRow(rows, c).value.cveId == c && FirstRow(rows, c).value in rows
  {
    if rows != [] {
      var n := |rows| - 1;
      RowsOfCve(rows[..n], c);
      assert RowIds(rows) == RowIds(rows[..n]) + [rows[n].cveId];
    }
  }

  /** The value one row writes into the summary built so far. */
  function ActionOf(d: Dicts.Dict<CveId, CveAction>, row: ActionRow): CveAction
  {
    match Dicts.Get(d, row.cveId)
    case None => CveAction(row.reboot, row.package)
    case Some(e) => e.(package := e.package + "," + row.package)
  }

  /** The summary's keys are the rows' CVEs in order of first appearance. */
  lemma {:induction false} ActionsKeys(rows: seq<ActionRow>)
    ensures Dicts.Keys(Actions(rows)) == Dicts.FirstSeen(RowIds(rows))
  {
    if rows != [] {
      var n := |rows| - 1;
      var init := rows[..n];
      ActionsKeys(init);
      assert RowIds(rows)[..n] == RowIds(init);
      assert Actions(rows) == Dicts.Put(Actions(init), rows[n].cveId, ActionOf(Actions(init), rows[n]));
      Dicts.PutKeys(Actions(init), rows[n].cveId, ActionOf(Actions(init), rows[n]));
    }
  }

  /** The last row's CVE, when an earlier row has it too: the last package is appended. */
  lemma ActionsGetRepeated(rows: seq<ActionRow>, c: CveId)
    requires rows != [] && rows[|rows| - 1].cveId == c
    requires var init := rows[..|rows| - 1];
      FirstRow(init, c).Some? &&
      Dicts.Get(Actions(init), c) == Some(CveAction(FirstRow(init, c).value.reboot, Strs.Join(PackagesOf(init, c), ",")))
    requires PackagesOf(rows[..|rows| - 1], c) != []
    ensures FirstRow(rows, c) == FirstRow(rows[..|rows| - 1], c)
    ensures Dicts.Get(Actions(rows), c) == Some(CveAction(FirstRow(rows, c).value.reboot, Strs.Join(PackagesOf(rows, c), ",")))
  {
    var n := |rows| - 1;
    var init := rows[..n];
    Strs.JoinSnoc(PackagesOf(init, c), ",", rows[n].package);
    assert PackagesOf(rows, c) == PackagesOf(init, c) + [rows[n].package];
  }

  /** The last row's CVE, when no earlier row has it: its reboot flag and package are taken. */
  lemma ActionsGetFresh(rows: seq<ActionRow>, c: CveId)
    requires rows != [] && rows[|rows| - 1].cveId == c
    requires c !in Dicts.Keys(Actions(rows[..|rows| - 1]))
    requires PackagesOf(rows[..|rows| - 1], c) == [] && FirstRow(rows[..|rows| - 1], c) == None
    ensures FirstRow(rows, c) == Some(rows[|rows| - 1])
    ensures Dicts.Get(Actions(rows), c) == Some(CveAction(FirstRow(rows, c).value.reboot, Strs.Join(PackagesOf(rows, c), ",")))
  {
    var n := |rows| - 1;
    Dicts.GetDefined(Actions(rows[..n]), c);
    assert PackagesOf(rows, c) == [rows[n].package];
  }

  /**
   * The entry of a CVE of the rows holds the reboot flag of its first row and its
   * packages joined with ",", in row order.
   */
  lemma {:induction false} ActionsGet(rows: seq<ActionRow>, c: CveId)
    requires c in RowIds(rows)
    ensures FirstRow(rows, c).Some?
    ensures Dicts.Get(Actions(rows), c) == Some(CveAction(FirstRow(rows, c).value.reboot, Strs.Join(PackagesOf(rows, c), ",")))
  {
    var n := |rows| - 1;
    var init := rows[..n];
    assert RowIds(rows) == RowIds(init) + [rows[n].cveId];
    RowsOfCve(init, c);
    if c != rows[n].cveId {
      ActionsGet(init, c);
      Dicts.PutOther(Actions(init), rows[n].cveId, ActionOf(Actions(init), rows[n]), c);
      assert PackagesOf(rows, c) == PackagesOf(init, c);
    } else if c in RowIds(init) {
      ActionsGet(init, c);
      ActionsGetRepeated(rows, c);
    } else {
      ActionsKeys(init);
      ActionsGetFresh(rows, c);
    }
  }

  /**
   * The summary has one entry per CVE of the rows, in order of first appearance;
   * each holds the reboot flag of the CVE's first row and its packages joined
   * with ",", in row order.
   */
  lemma ActionsExact(rows: seq<ActionRow>)
    ensures Dicts.Keys(Actions(rows)) == Dicts.FirstSeen(RowIds(rows))
    ensures forall c :: c in RowIds(rows) ==>
      FirstRow(rows, c).Some? &&
      Dicts.Get(Actions(rows), c) == Some(CveAction(FirstRow(rows, c).value.reboot, Strs.Join(PackagesOf(rows, c), ",")))
  {
    ActionsKeys(rows);
    forall c | c in RowIds(rows)
      ensures FirstRow(rows, c).Some? &&
        Dicts.Get(Actions(rows), c) == Some(CveAction(FirstRow(rows, c).value.reboot, Strs.Join(PackagesOf(rows, c), ",")))
    {
      ActionsGet(rows, c);
    }
  }

  /**
   * `judge_return_code(status_dict, default)` of the shared database helper,
   * which is not part of this model; its behaviour is assumed: SUCCEED when
   * the fail list is empty, PARTIAL_SUCCEED when both lists have entries, the
   * default otherwise.
   */
  function JudgeReturnCode(succeedList: seq<CveId>, failList: set<CveId>, default: Code): (r: Code)
    ensures failList == {} ==> r == Success
    ensures failList != {} ==> r == (if succeedList != [] then PartialSucceed else default)
  {
    if failList == {} then Success
    else if succeedList != [] then PartialSucceed
    else default
  }

  /**
   * `_get_processed_cve_action`: the summary of the action rows, and its status
   * code: SUCCEED when every listed CVE has a row, PARTIAL_SUCCEED when some but
   * not all do, NO_DATA when none does (an empty list asks for nothing and is
   * SUCCEED).
   */
  method GetProcessedCveAction(rows: seq<ActionRow>, cveList: seq<CveId>) returns (code: Code, result: Dicts.Dict<CveId, CveAction>)
    ensures result == Actions(rows)
    ensures code == NoData <==> rows == [] && cveList != []
    ensures code == PartialSucceed <==> rows != [] && exists c :: c in cveList && c !in RowIds(rows)
    ensures code == Success <==> forall c :: c in cveList ==> c in RowIds(rows)
  {
    result := [];
    for i := 0 to |rows|
      invariant result == Actions(rows[..i])
    {
      assert rows[..i + 1][..i] == rows[..i];
      var row := rows[i];
      var e := Dicts.Get(result, row.cveId);
      if e.None? {
        result := Dicts.Put(result, row.cveId, CveAction(row.reboot, row.package));
      } else {
        result := Dicts.Put(result, row.cveId, e.value.(package := e.value.package + "," + row.package));
      }
    }
    assert rows[..|rows|] == rows;
    var succeedList := RowIds(rows);
    var failList := set c | c in cveList && c !in succeedList;
    assert failList != {} <==> exists c :: c in cveList && c !in RowIds(rows) by {
      if exists c :: c in cveList && c !in RowIds(rows) {
        var c :| c in cveList && c !in RowIds(rows);
        assert c in failList;
      }
    }
    if rows == [] && cveList != [] {
      assert cveList[0] in failList;
    }
    code := JudgeReturnCode(succeedList, failList, NoData);
  }

  // ---------------------------------------------------------------- save_security_advisory

  /** One row for the CVE table; release date, severity and score are stored as parsed. */
  datatype CveRow = CveRow(cveId: CveId, publishTime: XmlTree.Value, severity: XmlTree.Value, cvssScore: XmlTree.Value, reboot: bool)

  /** One row for the affected-package table. */
  datatype CvePkgRow = CvePkgRow(cveId: CveId, package: string)

  /** Whether a CVE row's id is among the known ones. */
  function CveRowIn(known: set<CveId>): CveRow -> bool
  {
    (r: CveRow) => r.cveId in known
  }

  /** Whether a package document's id is among the known ones. */
  function DocIn(known: set<CveId>): PkgDoc -> bool
  {
    (d: PkgDoc) => d.cveId in known
  }

  /**
   * The split in `_save_security_advisory`: the rows of CVEs the table already has
   * are to be updated, the others inserted; each side keeps the input order, and
   * together they hold every row as often as the input does.
   */
  method SplitCveRows(rows: seq<CveRow>, known: set<CveId>) returns (update: seq<CveRow>, insert: seq<CveRow>)
    ensures update == Seqs.Filter(rows, CveRowIn(known), true) && insert == Seqs.Filter(rows, CveRowIn(known), false)
    ensures multiset(update) + multiset(insert) == multiset(rows)
    ensures forall r :: r in update <==> r in rows && r.cveId in known
    ensures forall r :: r in insert <==> r in rows && r.cveId !in known
  {
    update, insert := Seqs.Partition(rows, CveRowIn(known));
    Seqs.FilterSplit(rows, CveRowIn(known));
  }

  /** The same split of package documents in `_save_cve_pkg_docs`, against the documents the index has. */
  method SplitPkgDocs(docs: seq<PkgDoc>, known: set<CveId>) returns (update: seq<PkgDoc>, insert: seq<PkgDoc>)
    ensures update == Seqs.Filter(docs, DocIn(known), true) && insert == Seqs.Filter(docs, DocIn(known), false)
    ensures multiset(update) + multiset(insert) == multiset(docs)
    ensures forall d :: d in update <==> d in docs && d.cveId in known
    ensures forall d :: d in insert <==> d in docs && d.cveId !in known
  {
    update, insert := Seqs.Partition(docs, DocIn(known));
    Seqs.FilterSplit(docs, DocIn(known));
  }

  /** The (cve, package) keys of the rows. */
  function PkgKeys(rows: seq<CvePkgRow>): set<(CveId, string)>
  {
    set r | r in rows :: (r.cveId, r.package)
  }

  /** `_insert_cve_pkg_rows`: the rows' keys are deleted, then the rows inserted, so the table gains exactly those keys. */
  method InsertCvePkgRows(db: Database, rows: seq<CvePkgRow>)
    modifies db
    ensures db.Snapshot() == old(db.Snapshot()).(cvePkgs := old(db.cvePkgs) + PkgKeys(rows))
  {
    var keys := PkgKeys(rows);
    db.cvePkgs := (db.cvePkgs - keys) + keys;
  }

  /** `_insert_cve_pkg_docs`: each document stored under its CVE id, in order. */
  function InsertDocs(index: map<CveId, PkgDoc>, docs: seq<PkgDoc>): map<CveId, PkgDoc>
  {
    if docs == [] then index
    else
      var n := |docs| - 1;
      InsertDocs(index, docs[..n])[docs[n].cveId := docs[n]]
  }

  /**
   * `_update_cve_pkg_docs`: each document merged with the existing document of its
   * CVE (as it was before the save) and stored, in order.
   */
  function UpdateDocs(index: map<CveId, PkgDoc>, existing: map<CveId, PkgDoc>, docs: seq<PkgDoc>): map<CveId, PkgDoc>
  {
    if docs == [] then index
    else
      var n := |docs| - 1;
      var d := docs[n];
      UpdateDocs(index, existing, docs[..n])[d.cveId := if d.cveId in existing then PkgDocMerge.MergedDoc(existing[d.cveId], d) else d]
  }

  /** `_save_cve_pkg_docs`: the new documents are inserted, then the others merged into the index. */
  function SavedDocs(index: map<CveId, PkgDoc>, docs: seq<PkgDoc>): map<CveId, PkgDoc>
  {
    var known := index.Keys;
    UpdateDocs(InsertDocs(index, Seqs.Filter(docs, DocIn(known), false)), index, Seqs.Filter(docs, DocIn(known), true))
  }

  /** The last document of CVE c. */
  function LastDoc(docs: seq<PkgDoc>, c: CveId): Option<PkgDoc>
  {
    if docs == [] then None
    else
      var n := |docs| - 1;
      if docs[n].cveId == c then Some(docs[n]) else LastDoc(docs[..n], c)
  }

  lemma LastDocSnoc(docs: seq<PkgDoc>, d: PkgDoc, c: CveId)
    ensures LastDoc(docs + [d], c) == if d.cveId == c then Some(d) else LastDoc(docs, c)
  {
    assert (docs + [d])[..|docs|] == docs;
  }

  /** Inserting documents: a CVE with a document ends with its last one; any other keeps its entry. */
  lemma {:induction false} InsertDocsGet(index: map<CveId, PkgDoc>, docs: seq<PkgDoc>, c: CveId)
    ensures var r := InsertDocs(index, docs);
      match LastDoc(docs, c)
      case Some(d) => c in r && r[c] == d
      case None => (c in r <==> c in index) && (c in index ==> r[c] == index[c])
  {
    if docs != [] {
      InsertDocsGet(index, docs[..|docs| - 1], c);
    }
  }

  /** Updating documents: a CVE with a document ends with its last one merged; any other keeps its entry. */
  lemma {:induction false} UpdateDocsGet(index: map<CveId, PkgDoc>, existing: map<CveId, PkgDoc>, docs: seq<PkgDoc>, c: CveId)
    ensures var r := UpdateDocs(index, existing, docs);
      match LastDoc(docs, c)
      case Some(d) => c in r && r[c] == (if c in existing then PkgDocMerge.MergedDoc(existing[c], d) else d)
      case None => (c in r <==> c in index) && (c in index ==> r[c] == index[c])
  {
    if docs != [] {
      UpdateDocsGet(index, existing, docs[..|docs| - 1], c);
    }
  }

  /**
   * Filtering by a test on the CVE id keeps the last document of a CVE that
   * passes, and leaves none for a CVE that fails.
   */
  lemma {:induction false} LastDocFilter(docs: seq<PkgDoc>, known: set<CveId>, want: bool, c: CveId)
    ensures LastDoc(Seqs.Filter(docs, DocIn(known), want), c) == if (c in known) == want then LastDoc(docs, c) else None
  {
    if docs != [] {
      var n := |docs| - 1;
      var d := docs[n];
      LastDocFilter(docs[..n], known, want, c);
      var kept := Seqs.Filter(docs[..n], DocIn(known), want);
      assert DocIn(known)(d) == (d.cveId in known);
      assert LastDoc(docs, c) == if d.cveId == c then Some(d) else LastDoc(docs[..n], c);
      if DocIn(known)(d) == want {
        assert Seqs.Filter(docs, DocIn(known), want) == kept + [d];
        LastDocSnoc(kept, d, c);
      } else {
        assert Seqs.Filter(docs, DocIn(known), want) == kept;
      }
    }
  }

  /**
   * After a save, a CVE with documents in the batch holds its last one, merged
   * with the document the index had before when there was one; every other CVE
   * keeps its entry, or its absence.
   */
  lemma SavedDocsExact(index: map<CveId, PkgDoc>, docs: seq<PkgDoc>, c: CveId)
    ensures var r := SavedDocs(index, docs);
      match LastDoc(docs, c)
      case Some(d) => c in r && r[c] == (if c in index then PkgDocMerge.MergedDoc(index[c], d) else d)
      case None => (c in r <==> c in index) && (c in index ==> r[c] == index[c])
  {
    var known := index.Keys;
    var inserted := InsertDocs(index, Seqs.Filter(docs, DocIn(known), false));
    LastDocFilter(docs, known, false, c);
    LastDocFilter(docs, known, true, c);
    InsertDocsGet(index, Seqs.Filter(docs, DocIn(known), false), c);
    UpdateDocsGet(inserted, index, Seqs.Filter(docs, DocIn(known), true), c);
  }

  // The documents of one advisory all hold the same os list object, which
  // `_merge_cve_pkg_doc` extends in place and the bulk update serializes only
  // after the loop. The members below model that as written; the members above
  // model the intended per-CVE merge, which the save uses.

  /**
   * The shared os list after the update loop as written: the stored document of
   * each updated CVE, in turn, merged into the list the previous turns left.
   */
  function SharedOsList(existing: map<CveId, PkgDoc>, docs: seq<PkgDoc>, shared: seq<OsInfo>): seq<OsInfo>
  {
    if docs == [] then shared
    else
      var n := |docs| - 1;
      var prev := SharedOsList(existing, docs[..n], shared);
      var c := docs[n].cveId;
      if c in existing then PkgDocMerge.MergeKeyed(existing[c].osList, prev, PkgDocMerge.OsVersion, PkgDocMerge.MergeOs) else prev
  }

  /** Each document stored under its CVE id with the given os list. */
  function StoreWithOsList(index: map<CveId, PkgDoc>, docs: seq<PkgDoc>, osList: seq<OsInfo>): map<CveId, PkgDoc>
  {
    if docs == [] then index
    else
      var n := |docs| - 1;
      StoreWithOsList(index, docs[..n], osList)[docs[n].cveId := docs[n].(osList := osList)]
  }

  /** `_update_cve_pkg_docs` as written: every updated document carries the final shared os list. */
  function UpdateDocsAsWritten(index: map<CveId, PkgDoc>, existing: map<CveId, PkgDoc>, docs: seq<PkgDoc>, shared: seq<OsInfo>): map<CveId, PkgDoc>
  {
    StoreWithOsList(index, docs, SharedOsList(existing, docs, shared))
  }

  /** `_save_cve_pkg_docs` as written, for documents that share the os list `shared`. */
  function SavedDocsAsWritten(index: map<CveId, PkgDoc>, docs: seq<PkgDoc>, shared: seq<OsInfo>): map<CveId, PkgDoc>
  {
    var known := index.Keys;
    UpdateDocsAsWritten(InsertDocs(index, Seqs.Filter(docs, DocIn(known), false)), index, Seqs.Filter(docs, DocIn(known), true), shared)
  }

  /** Storing with one os list: a CVE with a document ends with its last one carrying that list; any other keeps its entry. */
  lemma {:induction false} StoreWithOsListGet(index: map<CveId, PkgDoc>, docs: seq<PkgDoc>, osList: seq<OsInfo>, c: CveId)
    ensures var r := StoreWithOsList(index, docs, osList);
      match LastDoc(docs, c)
      case Some(d) => c in r && r[c] == d.(osList := osList)
      case None => (c in r <==> c in index) && (c in index ==> r[c] == index[c])
  {
    if docs != [] {
      StoreWithOsListGet(index, docs[..|docs| - 1], osList, c);
    }
  }

  /**
   * As written, any two CVEs the index already had and the batch updates end
   * with one and the same os list.
   */
  lemma SavedDocsAsWrittenShared(index: map<CveId, PkgDoc>, docs: seq<PkgDoc>, shared: seq<OsInfo>, c1: CveId, c2: CveId)
    requires c1 in index && c2 in index && LastDoc(docs, c1).Some? && LastDoc(docs, c2).Some?
    ensures var r := SavedDocsAsWritten(index, docs, shared);
      c1 in r && c2 in r && r[c1].osList == r[c2].osList
  {
    var known := index.Keys;
    var update := Seqs.Filter(docs, DocIn(known), true);
    var inserted := InsertDocs(index, Seqs.Filter(docs, DocIn(known), false));
    var final := SharedOsList(index, update, shared);
    LastDocFilter(docs, known, true, c1);
    LastDocFilter(docs, known, true, c2);
    StoreWithOsListGet(inserted, update, final, c1);
    StoreWithOsListGet(inserted, update, final, c2);
  }

  /** Documents of CVEs that are all known go to the update side only. */
  lemma {:induction false} FilterAllKnown(docs: seq<PkgDoc>, known: set<CveId>)
    requires forall i :: 0 <= i < |docs| ==> docs[i].cveId in known
    ensures Seqs.Filter(docs, DocIn(known), true) == docs
    ensures Seqs.Filter(docs, DocIn(known), false) == []
  {
    if docs != [] {
      var n := |docs| - 1;
      FilterAllKnown(docs[..n], known);
      assert DocIn(known)(docs[n]);
      assert docs[..n] + [docs[n]] == docs;
    }
  }

  /** The shared os list after two updated documents of stored CVEs: the first one's stored list merged in, then the second's. */
  lemma SharedOsListTwo(existing: map<CveId, PkgDoc>, d1: PkgDoc, d2: PkgDoc, shared: seq<OsInfo>)
    requires d1.cveId in existing && d2.cveId in existing
    ensures SharedOsList(existing, [d1, d2], shared) ==
      var key := PkgDocMerge.OsVersion;
      PkgDocMerge.MergeKeyed(existing[d2.cveId].osList, PkgDocMerge.MergeKeyed(existing[d1.cveId].osList, shared, key, PkgDocMerge.MergeOs), key, PkgDocMerge.MergeOs)
  {
    var key := PkgDocMerge.OsVersion;
    assert [d1, d2][..1] == [d1] && [d1][..0] == [];
    assert SharedOsList(existing, [d1], shared) == PkgDocMerge.MergeKeyed(existing[d1.cveId].osList, shared, key, PkgDocMerge.MergeOs);
  }

  /**
   * Two stored CVEs, A with os X and B with os Y, both in an advisory for os Z:
   * as written, A's saved document lists Y, which neither A's stored document
   * nor the advisory has.
   */
  lemma SavedDocsAsWrittenLeaks()
    ensures var r := SavedDocsAsWritten(LeakIndex(), LeakDocs(), [LeakOs("Z")]);
      "A" in r && r["A"].osList == [LeakOs("Z"), LeakOs("X"), LeakOs("Y")]
  {
    var x, y, z := LeakOs("X"), LeakOs("Y"), LeakOs("Z");
    var index, docs := LeakIndex(), LeakDocs();
    var key := PkgDocMerge.OsVersion;
    FilterAllKnown(docs, index.Keys);
    assert PkgDocMerge.KeysOf([z], key) == ["Z"];
    assert PkgDocMerge.KeysOf([z, x], key) == ["Z", "X"];
    PkgDocMerge.MergeKeyedFresh(x, [z], key, PkgDocMerge.MergeOs);
    PkgDocMerge.MergeKeyedFresh(y, [z, x], key, PkgDocMerge.MergeOs);
    SharedOsListTwo(index, docs[0], docs[1], [z]);
    assert SharedOsList(index, docs, [z]) == [z, x, y];
    assert SavedDocsAsWritten(index, docs, [z]) == StoreWithOsList(index, docs, [z, x, y]);
    StoreWithOsListGet(index, docs, [z, x, y], "A");
  }

  /** On the same input, the intended merge saves A with Z and X only. */
  lemma SavedDocsLeakFree()
    ensures var r := SavedDocs(LeakIndex(), LeakDocs());
      "A" in r && r["A"].osList == [LeakOs("Z"), LeakOs("X")]
  {
    var x, z := LeakOs("X"), LeakOs("Z");
    var index, docs := LeakIndex(), LeakDocs();
    assert PkgDocMerge.KeysOf([z], PkgDocMerge.OsVersion) == ["Z"];
    PkgDocMerge.MergeKeyedFresh(x, [z], PkgDocMerge.OsVersion, PkgDocMerge.MergeOs);
    assert docs[..1] == [docs[0]];
    assert LastDoc(docs, "A") == Some(docs[0]);
    SavedDocsExact(index, docs, "A");
    assert index["A"].osList == [x];
  }

  /** An os entry with no arches, updated at "t". */
  function LeakOs(version: string): OsInfo
  {
    OsInfo(version, XmlTree.Str("t"), [])
  }

  /** The stored documents of the example: A with os X, B with os Y. */
  function LeakIndex(): map<CveId, PkgDoc>
  {
    map["A" := PkgDoc("A", XmlTree.Str(""), [LeakOs("X")]), "B" := PkgDoc("B", XmlTree.Str(""), [LeakOs("Y")])]
  }

  /** The advisory's documents of the example: A and B, sharing the os list [Z]. */
  function LeakDocs(): seq<PkgDoc>
  {
    [PkgDoc("A", XmlTree.Str("a"), [LeakOs("Z")]), PkgDoc("B", XmlTree.Str("b"), [LeakOs("Z")])]
  }

  /** `_insert_cve_pkg_docs`: the bulk insert, one document after another. */
  method InsertPkgDocs(index: map<CveId, PkgDoc>, docs: seq<PkgDoc>) returns (r: map<CveId, PkgDoc>)
    ensures r == InsertDocs(index, docs)
  {
    r := index;
    for i := 0 to |docs|
      invariant r == InsertDocs(index, docs[..i])
    {
      assert docs[..i + 1][..i] == docs[..i];
      r := r[docs[i].cveId := docs[i]];
    }
    assert docs[..|docs|] == docs;
  }

  /** `_update_cve_pkg_docs`: each document merged with the existing one of its CVE, then the bulk update. */
  method UpdatePkgDocs(index: map<CveId, PkgDoc>, existing: map<CveId, PkgDoc>, docs: seq<PkgDoc>) returns (r: map<CveId, PkgDoc>)
    ensures r == UpdateDocs(index, existing, docs)
  {
    r := index;
    for i := 0 to |docs|
      invariant r == UpdateDocs(index, existing, docs[..i])
    {
      assert docs[..i + 1][..i] == docs[..i];
      var d := docs[i];
      if d.cveId in existing {
        var merged := PkgDocMerge.MergeCvePkgDoc(existing[d.cveId], d);
        r := r[d.cveId := merged];
      } else {
        r := r[d.cveId := d];
      }
    }
    assert docs[..|docs|] == docs;
  }

  /** `_save_cve_pkg_docs`: split, insert the new documents, merge the others. */
  method SaveCvePkgDocs(db: Database, docs: seq<PkgDoc>)
    modifies db
    ensures db.Snapshot() == old(db.Snapshot()).(pkgDocs := SavedDocs(old(db.pkgDocs), docs))
  {
    var existing := db.pkgDocs;
    var update, insert := SplitPkgDocs(docs, existing.Keys);
    var index := InsertPkgDocs(existing, insert);
    index := UpdatePkgDocs(index, existing, update);
    db.pkgDocs := index;
  }

  /**
   * save_security_advisory: with a working store, the CVE table gains the ids of
   * the new rows, the package table the rows' keys and the package index the
   * documents, and the code is SUCCEED; otherwise nothing changes and the code is
   * DATABASE_INSERT_ERROR.
   */
  method SaveSecurityAdvisory(db: Database, cveRows: seq<CveRow>, pkgRows: seq<CvePkgRow>, docs: seq<PkgDoc>) returns (code: Code)
    modifies db
    ensures old(db.online) ==> code == Success && db.Snapshot() == old(db.Snapshot()).(
      cves := old(db.cves) + (set r | r in cveRows :: r.cveId),
      cvePkgs := old(db.cvePkgs) + PkgKeys(pkgRows),
      pkgDocs := SavedDocs(old(db.pkgDocs), docs))
    ensures !old(db.online) ==> code == DatabaseInsertError && db.Snapshot() == old(db.Snapshot())
  {
    if !db.online {
      return DatabaseInsertError;
    }
    InsertCveRows(db, cveRows);
    InsertCvePkgRows(db, pkgRows);
    SaveCvePkgDocs(db, docs);
    code := Success;
  }

  /** The CVE table part of save_security_advisory: rows of known CVEs are updated, the others inserted. */
  method InsertCveRows(db: Database, cveRows: seq<CveRow>)
    modifies db
    ensures db.Snapshot() == old(db.Snapshot()).(cves := old(db.cves) + (set r | r in cveRows :: r.cveId))
  {
    var update, insert := SplitCveRows(cveRows, db.cves);
    ghost var before := db.cves;
    db.cves := db.cves + (set r | r in insert :: r.cveId);
    assert db.cves == before + (set r | r in cveRows :: r.cveId) by {
      forall r | r in cveRows ensures r.cveId in db.cves {
        if r.cveId !in before {
          assert r in insert;
        }
      }
    }
  }

  // ---------------------------------------------------------------- _get_related_cve

  /** The CVEs recorded on some host of the user (`exist_cve_query`). */
  function UserHostCves(t: Tables, username: UserName): set<CveId>
  {
    set r | r in t.cveHostRows && r.0 in t.hosts && t.hosts[r.0].user == username :: r.1
  }

  /** Those of them that affect one of the packages (`related_cve_query`). */
  function SharingPackage(t: Tables, username: UserName, pkgList: seq<string>): set<CveId>
  {
    set k | k in t.cvePkgs && k.1 in pkgList && k.0 in UserHostCves(t, username) :: k.0
  }

  /** The exceptions `_get_related_cve` can raise: `[0]` of an empty list, and `remove` of a missing element. */
  datatype RelatedError = IndexError | KeyError

  /**
   * `_get_related_cve` as written: it raises IndexError when the user's hosts
   * have no CVE or none of them shares a package, and KeyError when the queried
   * CVE is not among the ones sharing a package.
   */
  function RelatedCveAsWritten(t: Tables, username: UserName, cveId: CveId, pkgList: seq<string>): (r: Result<set<CveId>, RelatedError>)
    ensures r.Ok? ==> cveId !in r.value
  {
    if pkgList == [] then Ok({})
    else if UserHostCves(t, username) == {} then Err(IndexError)
    else
      var related := SharingPackage(t, username, pkgList);
      if related == {} then Err(IndexError)
      else if cveId !in related then Err(KeyError)
      else Ok(related - {cveId})
  }

  /**
   * As written, the lookup fails exactly when there are packages and the queried
   * CVE is not among the user's CVEs sharing one; when the packages are the
   * CVE's own, that is exactly when no host of the user has the CVE.
   */
  lemma RelatedCveAsWrittenFails(t: Tables, username: UserName, cveId: CveId, pkgList: seq<string>)
    ensures RelatedCveAsWritten(t, username, cveId, pkgList).Err? <==>
      pkgList != [] && cveId !in SharingPackage(t, username, pkgList)
    ensures pkgList != [] && (forall p :: p in pkgList ==> (cveId, p) in t.cvePkgs) ==>
      (RelatedCveAsWritten(t, username, cveId, pkgList).Err? <==> cveId !in UserHostCves(t, username))
  {
    if pkgList != [] && (forall p :: p in pkgList ==> (cveId, p) in t.cvePkgs) && cveId in UserHostCves(t, username) {
      assert (cveId, pkgList[0]) in t.cvePkgs;
    }
  }

  /**
   * A user with a reviewed CVE that no host of theirs reports any more (a later
   * scan dropped it) while a host reports another CVE of the same package: the
   * lookup raises KeyError, which the CVE-info query does not catch.
   */
  lemma RelatedCveAsWrittenKeyError()
    ensures var t := Tables(true, map[], map[], map[],
        map["h1" := HostRow("admin", "done", 0, "")], map[], map[],
        {"CVE-A", "CVE-B"}, [("h1", "CVE-B")], map[("admin", "CVE-A") := "not reviewed"],
        {("CVE-A", "p"), ("CVE-B", "p")}, map[], []);
      && ("admin", "CVE-A") in t.userCves
      && RelatedCveAsWritten(t, "admin", "CVE-A", ["p"]) == Err(KeyError)
      && RelatedCve(t, "admin", "CVE-A", ["p"]) == {"CVE-B"}
  {
    var t := Tables(true, map[], map[], map[],
        map["h1" := HostRow("admin", "done", 0, "")], map[], map[],
        {"CVE-A", "CVE-B"}, [("h1", "CVE-B")], map[("admin", "CVE-A") := "not reviewed"],
        {("CVE-A", "p"), ("CVE-B", "p")}, map[], []);
    assert UserHostCves(t, "admin") == {"CVE-B"} by {
      assert ("h1", "CVE-B") in t.cveHostRows;
    }
    assert SharingPackage(t, "admin", ["p"]) == {"CVE-B"} by {
      assert ("CVE-B", "p") in t.cvePkgs;
    }
    assert "CVE-A" != "CVE-B" by { assert "CVE-A"[4] != "CVE-B"[4]; }
  }

  /**
   * `_get_related_cve` as intended: the user's CVEs sharing a package with the
   * queried one, without the queried CVE itself, and none without packages.
   */
  function RelatedCve(t: Tables, username: UserName, cveId: CveId, pkgList: seq<string>): (r: set<CveId>)
    ensures cveId !in r
    ensures pkgList == [] ==> r == {}
    ensures forall c :: c in r <==>
      pkgList != [] && c != cveId && c in UserHostCves(t, username) && exists p :: p in pkgList && (c, p) in t.cvePkgs
  {
    if pkgList == [] then {} else SharingPackage(t, username, pkgList) - {cveId}
  }

  /** Wherever the code as written returns a list, it is the intended one. */
  lemma RelatedCveAgrees(t: Tables, username: UserName, cveId: CveId, pkgList: seq<string>)
    ensures RelatedCveAsWritten(t, username, cveId, pkgList).Ok? ==>
      RelatedCveAsWritten(t, username, cveId, pkgList).value == RelatedCve(t, username, cveId, pkgList)
  {
  }
}
