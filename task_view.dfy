/**
 * The views the task proxy builds from a CVE task's units: the CVEs that may be
 * rolled back, the per-CVE summary list with its status filter, its ordering and
 * paging, the per-CVE host status lists, and the filtering of a saved run log.
 */
module TaskView {
  import opened Types
  import opened Wrappers
  import opened Store
  import opened TaskProgress
  import Dicts
  import Seqs

  // ---------------------------------------------------------------- _query_cve_task_cve_status

  /** A unit of the user's task, restricted to the listed CVEs (all of them when the list is empty). */
  predicate CveStatusRowOf(units: map<(TaskId, CveId, HostId), CveStatus>, tasks: map<TaskId, TaskRow>,
                           username: UserName, task: TaskId, cveList: seq<CveId>, row: UnitRow)
  {
    && row.task == task
    && task in tasks && tasks[task].user == username
    && (cveList == [] || row.cve in cveList)
    && (row.task, row.cve, row.host) in units && units[(row.task, row.cve, row.host)] == row.status
  }

  /** _query_cve_task_cve_status: each visible unit once, in the database's order. */
  method QueryCveStatusRows(db: Database, username: UserName, task: TaskId, cveList: seq<CveId>)
    returns (rows: seq<UnitRow>)
    ensures forall row :: row in rows <==> CveStatusRowOf(db.units, db.tasks, username, task, cveList, row)
    ensures forall i, j :: 0 <= i < j < |rows| ==> rows[i] != rows[j]
  {
    rows := [];
    if task !in db.tasks || db.tasks[task].user != username {
      return;
    }
    var pending := set k | k in db.units && k.0 == task && (cveList == [] || k.1 in cveList);
    while pending != {}
      invariant forall k :: k in pending ==> k in db.units && k.0 == task && (cveList == [] || k.1 in cveList)
      invariant forall row :: row in rows <==>
        CveStatusRowOf(db.units, db.tasks, username, task, cveList, row) && (row.task, row.cve, row.host) !in pending
      invariant forall i, j :: 0 <= i < j < |rows| ==> rows[i] != rows[j]
      decreases |pending|
    {
      var k :| k in pending;
      var row := UnitRow(k.0, k.1, k.2, db.units[k]);
      assert row !in rows;
      rows := rows + [row];
      pending := pending - {k};
      forall r ensures r in rows <==>
        CveStatusRowOf(db.units, db.tasks, username, task, cveList, r) && (r.task, r.cve, r.host) !in pending
      {
        if CveStatusRowOf(db.units, db.tasks, username, task, cveList, r) && (r.task, r.cve, r.host) == k {
          assert r == row;
        }
      }
    }
  }

  // ---------------------------------------------------------------- _get_rollback_cve_list

  function CveIds(rows: seq<UnitRow>): (r: seq<CveId>)
    ensures |r| == |rows|
    ensures forall i :: 0 <= i < |rows| ==> r[i] == rows[i].cve
  {
    seq(|rows|, i requires 0 <= i < |rows| => rows[i].cve)
  }

  /** The statuses of one CVE's rows, collected left to right as the source's defaultdict(set) does. */
  function StatusesOf(rows: seq<UnitRow>, c: CveId): set<CveStatus>
  {
    if rows == [] then {}
    else StatusesOf(rows[..|rows| - 1], c) + (if rows[|rows| - 1].cve == c then {rows[|rows| - 1].status} else {})
  }

  /** A status belongs to a CVE's set exactly when some row of that CVE carries it. */
  lemma {:induction false} StatusesOfExact(rows: seq<UnitRow>, c: CveId, s: CveStatus)
    ensures s in StatusesOf(rows, c) <==> exists row :: row in rows && row.cve == c && row.status == s
  {
    if rows != [] {
      var init := rows[..|rows| - 1];
      StatusesOfExact(init, c, s);
      assert rows == init + [rows[|rows| - 1]];
    }
  }

  /** A CVE may be rolled back when its aggregate is "succeed" or "fail". */
  function Revertible(statuses: set<CveStatus>): (r: bool)
    ensures r <==> Running !in statuses && Unknown !in statuses
  {
    CveTaskStatus(statuses) == Succeed || CveTaskStatus(statuses) == Fail
  }

  /** The first loop of _get_rollback_cve_list: each CVE's statuses, keys in first-appearance order. */
  method GroupStatusesByCve(rows: seq<UnitRow>) returns (order: seq<CveId>, statuses: map<CveId, set<CveStatus>>)
    ensures order == Dicts.FirstSeen(CveIds(rows))
    ensures forall c :: c in statuses <==> c in order
    ensures forall c :: c in statuses ==> statuses[c] == StatusesOf(rows, c)
  {
    order := [];
    statuses := map[];
    for i := 0 to |rows|
      invariant order == Dicts.FirstSeen(CveIds(rows[..i]))
      invariant forall c :: c in statuses <==> c in order
      invariant forall c :: c in statuses ==> statuses[c] == StatusesOf(rows[..i], c)
      invariant forall c :: c !in statuses ==> StatusesOf(rows[..i], c) == {}
    {
      var row := rows[i];
      ghost var order0, statuses0 := order, statuses;
      if row.cve in statuses {
        statuses := statuses[row.cve := statuses[row.cve] + {row.status}];
      } else {
        order := order + [row.cve];
        statuses := statuses[row.cve := {row.status}];
      }
      GroupedOrder(rows, i, order0, order);
      GroupedKeys(row.cve, order0, statuses0, order, statuses);
      GroupStatuses(rows, i);
      GroupedValues(rows, i, statuses0, statuses);
    }
    assert rows[..|rows|] == rows;
  }

  lemma GroupedOrder(rows: seq<UnitRow>, i: nat, order: seq<CveId>, order': seq<CveId>)
    requires i < |rows| && order == Dicts.FirstSeen(CveIds(rows[..i]))
    requires order' == if rows[i].cve in order then order else order + [rows[i].cve]
    ensures order' == Dicts.FirstSeen(CveIds(rows[..i + 1]))
  {
    assert rows[..i + 1][..i] == rows[..i];
    assert CveIds(rows[..i + 1]) == CveIds(rows[..i]) + [rows[i].cve];
  }

  lemma GroupedKeys<V>(x: CveId, order: seq<CveId>, statuses: map<CveId, V>, order': seq<CveId>, statuses': map<CveId, V>)
    requires forall c :: c in statuses <==> c in order
    requires x in statuses ==> order' == order && statuses'.Keys == statuses.Keys
    requires x !in statuses ==> order' == order + [x] && statuses'.Keys == statuses.Keys + {x}
    ensures forall c :: c in statuses' <==> c in order'
  {
  }

  lemma GroupedValues(rows: seq<UnitRow>, i: nat, statuses: map<CveId, set<CveStatus>>, statuses': map<CveId, set<CveStatus>>)
    requires i < |rows|
    requires forall c :: c in statuses ==> statuses[c] == StatusesOf(rows[..i], c)
    requires forall c :: c !in statuses ==> StatusesOf(rows[..i], c) == {}
    requires forall c ::
      StatusesOf(rows[..i + 1], c) == StatusesOf(rows[..i], c) + (if rows[i].cve == c then {rows[i].status} else {})
    requires rows[i].cve in statuses ==> statuses' == statuses[rows[i].cve := statuses[rows[i].cve] + {rows[i].status}]
    requires rows[i].cve !in statuses ==> statuses' == statuses[rows[i].cve := {rows[i].status}]
    ensures forall c :: c in statuses' ==> statuses'[c] == StatusesOf(rows[..i + 1], c)
    ensures forall c :: c !in statuses' ==> StatusesOf(rows[..i + 1], c) == {}
  {
  }

  /** One more row: its status joins its CVE's set. */
  lemma GroupStatuses(rows: seq<UnitRow>, i: nat)
    requires i < |rows|
    ensures forall c ::
      StatusesOf(rows[..i + 1], c) == StatusesOf(rows[..i], c) + (if rows[i].cve == c then {rows[i].status} else {})
  {
    assert rows[..i + 1][..i] == rows[..i];
  }

  /**
   * _get_rollback_cve_list over the query rows: group the statuses by CVE, then keep
   * the CVEs whose aggregate is "succeed" or "fail", in first-appearance order.
   */
  method RollbackCveList(rows: seq<UnitRow>) returns (cveList: seq<CveId>)
    ensures Dicts.Distinct(cveList)
    ensures forall c :: c in cveList <==> c in CveIds(rows) && Revertible(StatusesOf(rows, c))
  {
    var order, statuses := GroupStatusesByCve(rows);
    cveList := [];
    for j := 0 to |order|
      invariant Dicts.Distinct(cveList)
      invariant forall c :: c in cveList <==> c in order[..j] && Revertible(statuses[c])
    {
      var c := order[j];
      assert c !in order[..j];
      assert order[..j + 1] == order[..j] + [c];
      if Revertible(statuses[c]) {
        cveList := cveList + [c];
      }
    }
    assert order[..|order|] == order;
  }

  /**
   * _get_rollback_cve_list end to end: a CVE is listed exactly when the user's task
   * has units of it and none of them is running or unknown.
   */
  method GetRollbackCveList(db: Database, username: UserName, task: TaskId) returns (cveList: seq<CveId>)
    ensures Dicts.Distinct(cveList)
    ensures forall c :: c in cveList <==>
      && task in db.tasks && db.tasks[task].user == username
      && (exists h :: (task, c, h) in db.units)
      && (forall h :: (task, c, h) in db.units ==> db.units[(task, c, h)] != Running && db.units[(task, c, h)] != Unknown)
  {
    var rows := QueryCveStatusRows(db, username, task, []);
    cveList := RollbackCveList(rows);
    forall c ensures c in cveList <==>
      && task in db.tasks && db.tasks[task].user == username
      && (exists h :: (task, c, h) in db.units)
      && (forall h :: (task, c, h) in db.units ==> db.units[(task, c, h)] != Running && db.units[(task, c, h)] != Unknown)
    {
      StatusesOfExact(rows, c, Running);
      StatusesOfExact(rows, c, Unknown);
      if c in CveIds(rows) {
        var i :| 0 <= i < |rows| && rows[i].cve == c;
        assert rows[i] in rows;
        assert (task, c, rows[i].host) in db.units;
      }
      if task in db.tasks && db.tasks[task].user == username && exists h :: (task, c, h) in db.units {
        var h :| (task, c, h) in db.units;
        var row := UnitRow(task, c, h, db.units[(task, c, h)]);
        assert CveStatusRowOf(db.units, db.tasks, username, task, [], row);
        var i :| 0 <= i < |rows| && rows[i] == row;
        assert CveIds(rows)[i] == c;
        forall h' | (task, c, h') in db.units ensures UnitRow(task, c, h', db.units[(task, c, h')]) in rows {
          var row' := UnitRow(task, c, h', db.units[(task, c, h')]);
          assert CveStatusRowOf(db.units, db.tasks, username, task, [], row');
        }
      }
    }
  }

  // ---------------------------------------------------------------- _process_cve_task_data

  /** One row of _query_cve_task: a unit joined with its CVE's reboot flag and one affected package. */
  datatype CveTaskQueryRow = CveTaskQueryRow(cve: CveId, package: string, reboot: bool, host: HostId, status: CveStatus)

  /** What the first loop of _process_cve_task_data collects for one CVE. */
  datatype CveGroup = CveGroup(packages: set<string>, reboot: bool, hosts: set<HostId>, statuses: set<CveStatus>)

  /**
   * One entry of the CVE list of a task: its packages (joined with "," in the
   * source, in set order), the reboot flag, the number of distinct hosts and the aggregate.
   */
  datatype CveInfo = CveInfo(cveId: CveId, packages: set<string>, reboot: bool, hostNum: nat, status: Summary)

  function QueryCveIds(rows: seq<CveTaskQueryRow>): (r: seq<CveId>)
    ensures |r| == |rows|
    ensures forall i :: 0 <= i < |rows| ==> r[i] == rows[i].cve
  {
    seq(|rows|, i requires 0 <= i < |rows| => rows[i].cve)
  }

  /** The groups the first loop builds: a new CVE keeps its first row's reboot flag, later rows add to the sets. */
  function Groups(rows: seq<CveTaskQueryRow>): map<CveId, CveGroup>
  {
    if rows == [] then map[]
    else
      var g := Groups(rows[..|rows| - 1]);
      var row := rows[|rows| - 1];
      if row.cve in g then
        var prev := g[row.cve];
        g[row.cve := prev.(packages := prev.packages + {row.package}, hosts := prev.hosts + {row.host},
                          statuses := prev.statuses + {row.status})]
      else
        g[row.cve := CveGroup({row.package}, row.reboot, {row.host}, {row.status})]
  }

  /** A CVE's group holds exactly the packages, hosts and statuses of that CVE's rows. */
  lemma {:induction false} GroupsExact(rows: seq<CveTaskQueryRow>, c: CveId, p: string, h: HostId, s: CveStatus)
    ensures c in Groups(rows) <==> exists row :: row in rows && row.cve == c
    ensures c in Groups(rows) ==>
      && (p in Groups(rows)[c].packages <==> exists row :: row in rows && row.cve == c && row.package == p)
      && (h in Groups(rows)[c].hosts <==> exists row :: row in rows && row.cve == c && row.host == h)
      && (s in Groups(rows)[c].statuses <==> exists row :: row in rows && row.cve == c && row.status == s)
      && exists row :: row in rows && row.cve == c && row.reboot == Groups(rows)[c].reboot
  {
    if rows != [] {
      var init := rows[..|rows| - 1];
      GroupsExact(init, c, p, h, s);
      assert rows == init + [rows[|rows| - 1]];
    }
  }

  function InfoOf(c: CveId, g: CveGroup): CveInfo
  {
    CveInfo(c, g.packages, g.reboot, |g.hosts|, CveTaskStatus(g.statuses))
  }

  /** The status filter: absent keeps every CVE, a list keeps the CVEs whose aggregate it names. */
  predicate Wanted(needStatus: Option<seq<Summary>>, s: Summary)
  {
    needStatus.None? || s in needStatus.value
  }

  /** The second loop: the wanted CVEs of `order`, in that order. */
  function SelectInfos(order: seq<CveId>, groups: map<CveId, CveGroup>, needStatus: Option<seq<Summary>>): seq<CveInfo>
  {
    if order == [] then []
    else
      var rest := SelectInfos(order[..|order| - 1], groups, needStatus);
      var c := order[|order| - 1];
      if c in groups && Wanted(needStatus, InfoOf(c, groups[c]).status) then rest + [InfoOf(c, groups[c])] else rest
  }

  /** The result of _process_cve_task_data, CVEs in the order the query first returned them. */
  function CveInfos(rows: seq<CveTaskQueryRow>, needStatus: Option<seq<Summary>>): seq<CveInfo>
  {
    SelectInfos(Dicts.FirstSeen(QueryCveIds(rows)), Groups(rows), needStatus)
  }

  lemma {:induction false} SelectInfosExact(order: seq<CveId>, groups: map<CveId, CveGroup>,
                                            needStatus: Option<seq<Summary>>, info: CveInfo)
    ensures info in SelectInfos(order, groups, needStatus) <==>
      info.cveId in order && info.cveId in groups && info == InfoOf(info.cveId, groups[info.cveId]) && Wanted(needStatus, info.status)
  {
    if order != [] {
      var init := order[..|order| - 1];
      SelectInfosExact(init, groups, needStatus, info);
      assert order == init + [order[|order| - 1]];
    }
  }

  lemma {:induction false} SelectInfosDistinct(order: seq<CveId>, groups: map<CveId, CveGroup>,
                                               needStatus: Option<seq<Summary>>)
    requires Dicts.Distinct(order)
    ensures var r := SelectInfos(order, groups, needStatus);
      forall i, j :: 0 <= i < j < |r| ==> r[i].cveId != r[j].cveId
  {
    if order != [] {
      var init := order[..|order| - 1];
      var c := order[|order| - 1];
      SelectInfosDistinct(init, groups, needStatus);
      var rest := SelectInfos(init, groups, needStatus);
      forall i | 0 <= i < |rest| ensures rest[i].cveId != c {
        SelectInfosExact(init, groups, needStatus, rest[i]);
        assert rest[i] in rest;
      }
    }
  }

  /**
   * A CVE is listed exactly when it has rows and its aggregate passes the filter;
   * its entry then counts its distinct hosts and aggregates all its statuses. No CVE is listed twice.
   */
  lemma CveInfosExact(rows: seq<CveTaskQueryRow>, needStatus: Option<seq<Summary>>, info: CveInfo)
    ensures info in CveInfos(rows, needStatus) <==>
      && (exists row :: row in rows && row.cve == info.cveId)
      && info.cveId in Groups(rows)
      && info == InfoOf(info.cveId, Groups(rows)[info.cveId])
      && Wanted(needStatus, info.status)
    ensures var r := CveInfos(rows, needStatus);
      forall i, j :: 0 <= i < j < |r| ==> r[i].cveId != r[j].cveId
  {
    var order := Dicts.FirstSeen(QueryCveIds(rows));
    SelectInfosExact(order, Groups(rows), needStatus, info);
    SelectInfosDistinct(order, Groups(rows), needStatus);
    GroupsExact(rows, info.cveId, "", info.cveId, Fixed);
    if exists row :: row in rows && row.cve == info.cveId {
      var row :| row in rows && row.cve == info.cveId;
      var i :| 0 <= i < |rows| && rows[i] == row;
      assert QueryCveIds(rows)[i] == info.cveId;
    }
    if info.cveId in order {
      var i :| 0 <= i < |rows| && QueryCveIds(rows)[i] == info.cveId;
      assert rows[i] in rows;
    }
  }

  /** An empty status list filters out every CVE. */
  lemma {:induction false} NothingWanted(order: seq<CveId>, groups: map<CveId, CveGroup>)
    ensures SelectInfos(order, groups, Some([])) == []
  {
    if order != [] {
      NothingWanted(order[..|order| - 1], groups);
    }
  }

  /** The first loop of _process_cve_task_data. */
  method GroupCveRows(rows: seq<CveTaskQueryRow>) returns (order: seq<CveId>, groups: map<CveId, CveGroup>)
    ensures order == Dicts.FirstSeen(QueryCveIds(rows))
    ensures groups == Groups(rows)
  {
    order := [];
    groups := map[];
    for i := 0 to |rows|
      invariant order == Dicts.FirstSeen(QueryCveIds(rows[..i]))
      invariant groups == Groups(rows[..i])
      invariant forall c :: c in groups <==> c in order
    {
      var row := rows[i];
      var ids := QueryCveIds(rows[..i + 1]);
      assert rows[..i + 1][..i] == rows[..i];
      assert ids[..i] == QueryCveIds(rows[..i]);
      assert ids[i] == row.cve;
      if row.cve !in groups {
        order := order + [row.cve];
        groups := groups[row.cve := CveGroup({row.package}, row.reboot, {row.host}, {row.status})];
      } else {
        var prev := groups[row.cve];
        groups := groups[row.cve := prev.(packages := prev.packages + {row.package}, hosts := prev.hosts + {row.host},
                                         statuses := prev.statuses + {row.status})];
      }
    }
    assert rows[..|rows|] == rows;
  }

  /** _process_cve_task_data: one summary per CVE, filtered by aggregate when a status list is given. */
  method ProcessCveTaskData(rows: seq<CveTaskQueryRow>, needStatus: Option<seq<Summary>>) returns (infos: seq<CveInfo>)
    ensures infos == CveInfos(rows, needStatus)
  {
    var order, groups := GroupCveRows(rows);
    infos := [];
    if needStatus == Some([]) {
      NothingWanted(order, groups);
      return;
    }
    for j := 0 to |order|
      invariant infos == SelectInfos(order[..j], groups, needStatus)
    {
      assert order[..j + 1][..j] == order[..j];
      var c := order[j];
      assert c in Dicts.FirstSeen(QueryCveIds(rows));
      assert c in groups by {
        var i :| 0 <= i < |rows| && QueryCveIds(rows)[i] == c;
        GroupsExact(rows, c, "", "", Fixed);
        assert rows[i] in rows;
      }
      var info := InfoOf(c, groups[c]);
      if needStatus.None? || info.status in needStatus.value {
        infos := infos + [info];
      }
    }
    assert order[..|order|] == order;
  }

  // ---------------------------------------------------------------- _sort_and_page_task_cve

  /** `a` may stand before `b` in the order by host count (ascending, or descending when `desc`). */
  predicate Before(a: CveInfo, b: CveInfo, desc: bool)
  {
    if desc then a.hostNum >= b.hostNum else a.hostNum <= b.hostNum
  }

  predicate SortedBy(s: seq<CveInfo>, desc: bool)
  {
    forall i, j :: 0 <= i < j < |s| ==> Before(s[i], s[j], desc)
  }

  /** Insert x after every element it does not have to precede: ties keep their arrival order. */
  function Insert(x: CveInfo, s: seq<CveInfo>, desc: bool): seq<CveInfo>
  {
    if s == [] then [x]
    else if !Before(s[0], x, desc) then [x] + s
    else [s[0]] + Insert(x, s[1..], desc)
  }

  /** Inserting keeps every entry and adds the new one. */
  lemma {:induction false} InsertPerm(x: CveInfo, s: seq<CveInfo>, desc: bool)
    ensures multiset(Insert(x, s, desc)) == multiset(s) + multiset{x}
  {
    if s != [] && Before(s[0], x, desc) {
      InsertPerm(x, s[1..], desc);
      assert s == [s[0]] + s[1..];
    }
  }

  lemma {:induction false} InsertSorted(x: CveInfo, s: seq<CveInfo>, desc: bool)
    requires SortedBy(s, desc)
    ensures SortedBy(Insert(x, s, desc), desc)
  {
    if s != [] && Before(s[0], x, desc) {
      var rest := Insert(x, s[1..], desc);
      InsertSorted(x, s[1..], desc);
      InsertPerm(x, s[1..], desc);
      forall e | e in rest ensures Before(s[0], e, desc) {
        assert e in multiset(rest);
        if e != x {
          assert e in multiset(s[1..]);
          var i :| 0 <= i < |s[1..]| && s[1..][i] == e;
          assert s[i + 1] == e;
        }
      }
      var r := [s[0]] + rest;
      forall i, j | 0 <= i < j < |r| ensures Before(r[i], r[j], desc) {
        if i == 0 {
          assert r[j] == rest[j - 1];
          assert rest[j - 1] in rest;
        } else {
          assert r[i] == rest[i - 1] && r[j] == rest[j - 1];
        }
      }
    }
  }

  /**
   * Python's list.sort(key=host_num, reverse=desc): a stable sort, also when
   * reversed (records with equal keys keep their original order).
   */
  function SortByHostNum(s: seq<CveInfo>, desc: bool): (r: seq<CveInfo>)
    ensures multiset(r) == multiset(s)
    ensures SortedBy(r, desc)
  {
    if s == [] then []
    else
      var init := s[..|s| - 1];
      assert s == init + [s[|s| - 1]];
      var sortedInit := SortByHostNum(init, desc);
      InsertSorted(s[|s| - 1], sortedInit, desc);
      InsertPerm(s[|s| - 1], sortedInit, desc);
      Insert(s[|s| - 1], sortedInit, desc)
  }

  /** The entries with host count k, in order. */
  function WithHostNum(s: seq<CveInfo>, k: nat): seq<CveInfo>
  {
    if s == [] then [] else (if s[0].hostNum == k then [s[0]] else []) + WithHostNum(s[1..], k)
  }

  lemma {:induction false} WithHostNumAppend(s: seq<CveInfo>, t: seq<CveInfo>, k: nat)
    ensures WithHostNum(s + t, k) == WithHostNum(s, k) + WithHostNum(t, k)
  {
    if s == [] {
      assert s + t == t;
    } else {
      var x, s' := s[0], s[1..];
      WithHostNumAppend(s', t, k);
      Seqs.ConsAppend(s, t);
      WithHostNumCons(x, s' + t, k);
      WithHostNumCons(x, s', k);
      var head := if x.hostNum == k then [x] else [];
      Seqs.AppendAssoc(head, WithHostNum(s', k), WithHostNum(t, k));
    }
  }

  lemma {:induction false} WithHostNumNone(s: seq<CveInfo>, k: nat)
    requires forall i :: 0 <= i < |s| ==> s[i].hostNum != k
    ensures WithHostNum(s, k) == []
  {
    if s != [] {
      WithHostNumNone(s[1..], k);
    }
  }

  lemma {:induction false} InsertStable(x: CveInfo, s: seq<CveInfo>, desc: bool, k: nat)
    requires SortedBy(s, desc)
    ensures WithHostNum(Insert(x, s, desc), k) == WithHostNum(s, k) + (if x.hostNum == k then [x] else [])
  {
    var tail := if x.hostNum == k then [x] else [];
    if s == [] {
      WithHostNumCons(x, [], k);
    } else if !Before(s[0], x, desc) {
      InsertFront(x, s, desc, k);
    } else {
      SortedTail(s, desc);
      InsertStable(x, s[1..], desc, k);
      InsertLater(x, s, desc, k);
    }
  }

  lemma SortedTail(s: seq<CveInfo>, desc: bool)
    requires SortedBy(s, desc) && s != []
    ensures SortedBy(s[1..], desc)
  {
    forall i, j | 0 <= i < j < |s[1..]| ensures Before(s[1..][i], s[1..][j], desc) {
      assert s[1..][i] == s[i + 1] && s[1..][j] == s[j + 1];
    }
  }

  /** Inserting after the first element: its entry, then the insertion into the rest. */
  lemma InsertLater(x: CveInfo, s: seq<CveInfo>, desc: bool, k: nat)
    requires s != [] && Before(s[0], x, desc)
    requires WithHostNum(Insert(x, s[1..], desc), k) == WithHostNum(s[1..], k) + (if x.hostNum == k then [x] else [])
    ensures WithHostNum(Insert(x, s, desc), k) == WithHostNum(s, k) + (if x.hostNum == k then [x] else [])
  {
    var tail := if x.hostNum == k then [x] else [];
    var rest := Insert(x, s[1..], desc);
    var head := if s[0].hostNum == k then [s[0]] else [];
    assert Insert(x, s, desc) == [s[0]] + rest;
    WithHostNumCons(s[0], rest, k);
    WithHostNumCons(s[0], s[1..], k);
    assert [s[0]] + s[1..] == s;
    assert head + (WithHostNum(s[1..], k) + tail) == (head + WithHostNum(s[1..], k)) + tail;
  }

  /** Inserting before every element: no element has x's host count. */
  lemma InsertFront(x: CveInfo, s: seq<CveInfo>, desc: bool, k: nat)
    requires SortedBy(s, desc) && s != [] && !Before(s[0], x, desc)
    ensures WithHostNum([x] + s, k) == WithHostNum(s, k) + (if x.hostNum == k then [x] else [])
  {
    WithHostNumCons(x, s, k);
    if x.hostNum == k {
      forall i | 0 <= i < |s| ensures s[i].hostNum != k {
        if i > 0 { assert Before(s[0], s[i], desc); }
      }
      WithHostNumNone(s, k);
    }
  }

  lemma WithHostNumCons(y: CveInfo, t: seq<CveInfo>, k: nat)
    ensures WithHostNum([y] + t, k) == (if y.hostNum == k then [y] else []) + WithHostNum(t, k)
  {
    assert ([y] + t)[1..] == t;
  }

  /** Stability: for every host count, the entries with that count keep their relative order. */
  lemma {:induction false} SortStable(s: seq<CveInfo>, desc: bool, k: nat)
    ensures WithHostNum(SortByHostNum(s, desc), k) == WithHostNum(s, k)
  {
    if s != [] {
      var init := s[..|s| - 1];
      var x := s[|s| - 1];
      var sortedInit := SortByHostNum(init, desc);
      var tail := if x.hostNum == k then [x] else [];
      assert s == init + [x];
      calc {
        WithHostNum(SortByHostNum(s, desc), k);
        WithHostNum(Insert(x, sortedInit, desc), k);
        { InsertStable(x, sortedInit, desc, k); }
        WithHostNum(sortedInit, k) + tail;
        { SortStable(init, desc, k); }
        WithHostNum(init, k) + tail;
        { assert WithHostNum([x], k) == tail + WithHostNum([], k); }
        WithHostNum(init, k) + WithHostNum([x], k);
        { WithHostNumAppend(init, [x], k); }
        WithHostNum(s, k);
      }
    }
  }

  function CeilDiv(n: nat, d: nat): nat
    requires d > 0
  {
    (n + d - 1) / d
  }

  /** `s[per_page*(page-1): per_page*page]` with Python's clamping of slice bounds. */
  function PageSlice(s: seq<CveInfo>, page: nat, perPage: nat): seq<CveInfo>
    requires page > 0 && perPage > 0
  {
    var lo := if perPage * (page - 1) < |s| then perPage * (page - 1) else |s|;
    var hi := if perPage * page < |s| then perPage * page else |s|;
    s[lo..hi]
  }

  /** total_page pages of per_page entries hold the whole list, and one page fewer would not. */
  lemma TotalPageBounds(n: nat, perPage: nat)
    requires perPage > 0
    ensures n <= CeilDiv(n, perPage) * perPage
    ensures n > 0 ==> (CeilDiv(n, perPage) - 1) * perPage < n
    ensures n == 0 ==> CeilDiv(n, perPage) == 0
  {
    var q := CeilDiv(n, perPage);
    var r := (n + perPage - 1) % perPage;
    assert n + perPage - 1 == q * perPage + r;
    if n > 0 {
      assert q * perPage > 0;
      assert (q - 1) * perPage == q * perPage - perPage;
    }
  }

  /**
   * A page holds at most per_page entries: the entries at positions
   * per_page*(page-1) onwards. It is non-empty exactly when page <= total_page.
   */
  lemma PageContents(s: seq<CveInfo>, page: nat, perPage: nat)
    requires page > 0 && perPage > 0
    ensures |PageSlice(s, page, perPage)| <= perPage
    ensures forall i :: 0 <= i < |PageSlice(s, page, perPage)| ==> PageSlice(s, page, perPage)[i] == s[perPage * (page - 1) + i]
    ensures PageSlice(s, page, perPage) != [] <==> page <= CeilDiv(|s|, perPage)
  {
    PageStart(s, page, perPage);
    PageNonEmpty(|s|, page, perPage);
  }

  /** The page starts at position per_page*(page-1) and is at most per_page long. */
  lemma PageStart(s: seq<CveInfo>, page: nat, perPage: nat)
    requires page > 0 && perPage > 0
    ensures var lo := perPage * (page - 1);
      && PageSlice(s, page, perPage) == (if lo < |s| then s[lo..(if lo + perPage < |s| then lo + perPage else |s|)] else [])
  {
    assert perPage * page == perPage * (page - 1) + perPage;
  }

  /** Position per_page*(page-1) is inside a list of n entries exactly when page <= total_page. */
  lemma PageNonEmpty(n: nat, page: nat, perPage: nat)
    requires page > 0 && perPage > 0
    ensures perPage * (page - 1) < n <==> page <= CeilDiv(n, perPage)
  {
    var lo := perPage * (page - 1);
    TotalPageBounds(n, perPage);
    var q := CeilDiv(n, perPage);
    if page <= q {
      MulMono(perPage, page - 1, q - 1);
      assert perPage * (q - 1) == (q - 1) * perPage;
    } else {
      MulMono(perPage, q, page - 1);
      assert perPage * q == q * perPage;
    }
  }

  lemma MulMono(a: nat, b: nat, c: nat)
    requires b <= c
    ensures a * b <= a * c
  {
  }

  /**
   * _sort_and_page_task_cve: always sorts by host count (descending only for
   * sort "host_num" with direction "desc"); with a page and a page size it returns
   * that page and the page count, otherwise the whole list and one page.
   */
  method SortAndPageTaskCve(infos: seq<CveInfo>, sortColumn: Option<string>, direction: Option<string>,
                            page: nat, perPage: nat) returns (result: seq<CveInfo>, totalPage: nat)
    ensures var desc := sortColumn == Some("host_num") && direction == Some("desc");
      if page > 0 && perPage > 0 then
        totalPage == CeilDiv(|infos|, perPage) && result == PageSlice(SortByHostNum(infos, desc), page, perPage)
      else
        totalPage == 1 && result == SortByHostNum(infos, desc)
  {
    var reverse := false;
    if sortColumn == Some("host_num") && direction == Some("desc") {
      reverse := true;
    }
    totalPage := 1;
    var sorted := SortByHostNum(infos, reverse);
    if page > 0 && perPage > 0 {
      totalPage := CeilDiv(|infos|, perPage);
      return PageSlice(sorted, page, perPage), totalPage;
    }
    result := sorted;
  }

  /** The response of _get_processed_cve_task: total count, total page and the page itself. */
  datatype CveTaskPage = CveTaskPage(totalCount: nat, totalPage: nat, result: seq<CveInfo>)

  /**
   * _get_processed_cve_task: an empty filtered list is a normal answer (one page,
   * nothing on it); otherwise the list is sorted and paged and counted before paging.
   */
  method GetProcessedCveTask(rows: seq<CveTaskQueryRow>, needStatus: Option<seq<Summary>>,
                             sortColumn: Option<string>, direction: Option<string>, page: nat, perPage: nat)
    returns (r: CveTaskPage)
    ensures r.totalCount == |CveInfos(rows, needStatus)|
    ensures r.totalCount == 0 ==> r == CveTaskPage(0, 1, [])
    ensures r.totalCount > 0 ==>
      var sorted := SortByHostNum(CveInfos(rows, needStatus), sortColumn == Some("host_num") && direction == Some("desc"));
      if page > 0 && perPage > 0 then
        r.totalPage == CeilDiv(r.totalCount, perPage) && r.result == PageSlice(sorted, page, perPage)
      else
        r.totalPage == 1 && r.result == sorted
  {
    var infos := ProcessCveTaskData(rows, needStatus);
    if |infos| == 0 {
      return CveTaskPage(0, 1, []);
    }
    var result, totalPage := SortAndPageTaskCve(infos, sortColumn, direction, page, perPage);
    r := CveTaskPage(|infos|, totalPage, result);
  }

  // ---------------------------------------------------------------- _get_processed_task_cve_status

  /** One entry of a CVE's host list (the host name and address columns are not modelled). */
  datatype HostStatus = HostStatus(hostId: HostId, status: CveStatus)

  /** The host entries of one CVE, in row order, as the source's defaultdict(list) collects them. */
  function HostsOfCve(rows: seq<UnitRow>, c: CveId): seq<HostStatus>
  {
    if rows == [] then []
    else
      var row := rows[|rows| - 1];
      HostsOfCve(rows[..|rows| - 1], c) + (if row.cve == c then [HostStatus(row.host, row.status)] else [])
  }

  lemma {:induction false} HostsOfCveExact(rows: seq<UnitRow>, c: CveId, e: HostStatus)
    ensures e in HostsOfCve(rows, c) <==> exists row :: row in rows && row.cve == c && e == HostStatus(row.host, row.status)
  {
    if rows != [] {
      var init := rows[..|rows| - 1];
      HostsOfCveExact(init, c, e);
      assert rows == init + [rows[|rows| - 1]];
    }
  }

  /** The grouping loop of _get_processed_task_cve_status. */
  method GroupHostsByCve(rows: seq<UnitRow>) returns (result: map<CveId, seq<HostStatus>>)
    ensures forall c :: c in result <==> c in CveIds(rows)
    ensures forall c :: c in result ==> result[c] == HostsOfCve(rows, c)
  {
    result := map[];
    for i := 0 to |rows|
      invariant forall c :: c in result <==> c in CveIds(rows[..i])
      invariant forall c :: c in result ==> result[c] == HostsOfCve(rows[..i], c)
      invariant forall c :: c !in result ==> HostsOfCve(rows[..i], c) == []
    {
      var row := rows[i];
      assert rows[..i + 1][..i] == rows[..i];
      assert CveIds(rows[..i + 1]) == CveIds(rows[..i]) + [row.cve];
      var sofar := if row.cve in result then result[row.cve] else [];
      result := result[row.cve := sofar + [HostStatus(row.host, row.status)]];
    }
    assert rows[..|rows|] == rows;
  }

  /**
   * get_task_cve_status: the host statuses of the listed CVEs (all when the list
   * is empty). No visible unit at all is NO_DATA; a listed CVE without units makes
   * the answer PARTIAL_SUCCEED.
   */
  method GetTaskCveStatus(db: Database, username: UserName, task: TaskId, cveList: seq<CveId>)
    returns (code: Code, result: map<CveId, seq<HostStatus>>)
    ensures !db.online ==> code == DatabaseQueryError && result == map[]
    ensures db.online ==>
      && (code == NoData <==> forall row :: !CveStatusRowOf(db.units, db.tasks, username, task, cveList, row))
      && (code == NoData ==> result == map[])
      && (code != NoData ==> (code == PartialSucceed <==> exists c :: c in cveList && c !in result))
      && (code == NoData || code == PartialSucceed || code == Success)
    ensures forall c :: c in result ==> exists row :: CveStatusRowOf(db.units, db.tasks, username, task, cveList, row) && row.cve == c
    ensures forall c, e :: c in result ==>
      (e in result[c] <==> CveStatusRowOf(db.units, db.tasks, username, task, cveList, UnitRow(task, c, e.hostId, e.status)))
  {
    result := map[];
    if !db.online {
      return DatabaseQueryError, result;
    }
    var rows := QueryCveStatusRows(db, username, task, cveList);
    if rows == [] {
      return NoData, result;
    }
    result := GroupHostsByCve(rows);
    forall c, e | c in result
      ensures e in result[c] <==> CveStatusRowOf(db.units, db.tasks, username, task, cveList, UnitRow(task, c, e.hostId, e.status))
    {
      HostsOfCveExact(rows, c, e);
    }
    forall c | c in result ensures exists row :: CveStatusRowOf(db.units, db.tasks, username, task, cveList, row) && row.cve == c {
      var i :| 0 <= i < |rows| && CveIds(rows)[i] == c;
      assert rows[i] in rows;
    }
    var missing := exists c :: c in cveList && c !in result;
    code := if missing then PartialSucceed else Success;
    assert rows[0] in rows;
  }

  /**
   * get_task_cve_status as written: with no visible unit, the early return
   * builds `{"result", {}}`, a set display holding a dict, and hashing the dict
   * raises TypeError instead of answering NO_DATA. Every other answer is the
   * intended one.
   */
  method GetTaskCveStatusAsWritten(db: Database, username: UserName, task: TaskId, cveList: seq<CveId>)
    returns (r: Result<(Code, map<CveId, seq<HostStatus>>), Raised>)
    ensures r.Err? <==> db.online && forall row :: !CveStatusRowOf(db.units, db.tasks, username, task, cveList, row)
    ensures r.Ok? ==> r.value.0 != NoData
    ensures r.Ok? && db.online ==> r.value.0 == PartialSucceed || r.value.0 == Success
  {
    if !db.online {
      return Ok((DatabaseQueryError, map[]));
    }
    var rows := QueryCveStatusRows(db, username, task, cveList);
    if rows == [] {
      return Err(TypeError);
    }
    assert rows[0] in rows;
    var code, result := GetTaskCveStatus(db, username, task, cveList);
    return Ok((code, result));
  }

  // ---------------------------------------------------------------- _process_cve_task_result / _process_repo_task_result

  /** The entries of a host's CVE list that name a listed CVE, in order. */
  function CveResultsIn(cves: seq<CveResult>, cveList: seq<CveId>): seq<CveResult>
  {
    if cves == [] then []
    else
      var e := cves[|cves| - 1];
      CveResultsIn(cves[..|cves| - 1], cveList) + (if e.cveId in cveList then [e] else [])
  }

  /** Each host with its CVE list narrowed to the listed CVEs; hosts left with none are dropped. */
  function KeptHosts(hosts: seq<HostResult>, cveList: seq<CveId>): seq<HostResult>
  {
    if hosts == [] then []
    else
      var h := hosts[|hosts| - 1];
      var kept := CveResultsIn(h.cves, cveList);
      KeptHosts(hosts[..|hosts| - 1], cveList) + (if kept != [] then [h.(cves := kept)] else [])
  }

  lemma {:induction false} CveResultsInExact(cves: seq<CveResult>, cveList: seq<CveId>, e: CveResult)
    ensures e in CveResultsIn(cves, cveList) <==> e in cves && e.cveId in cveList
  {
    if cves != [] {
      var init := cves[..|cves| - 1];
      CveResultsInExact(init, cveList, e);
      assert cves == init + [cves[|cves| - 1]];
    }
  }

  lemma {:induction false} CveResultsInIdempotent(cves: seq<CveResult>, cveList: seq<CveId>)
    ensures CveResultsIn(CveResultsIn(cves, cveList), cveList) == CveResultsIn(cves, cveList)
  {
    if cves != [] {
      var init := cves[..|cves| - 1];
      var e := cves[|cves| - 1];
      CveResultsInIdempotent(init, cveList);
      var r := CveResultsIn(init, cveList);
      if e.cveId in cveList {
        assert (r + [e])[..|r + [e]| - 1] == r;
        assert CveResultsIn(r + [e], cveList) == CveResultsIn(r, cveList) + [e];
        assert CveResultsIn(cves, cveList) == r + [e];
      } else {
        assert r + [] == r;
        assert CveResultsIn(cves, cveList) == r;
      }
    }
  }

  /**
   * A kept host is an input host narrowed to the listed CVEs, with at least one of
   * them left; every input host with a listed CVE is kept.
   */
  lemma {:induction false} KeptHostsExact(hosts: seq<HostResult>, cveList: seq<CveId>, x: HostResult)
    ensures x in KeptHosts(hosts, cveList) <==>
      exists h :: h in hosts && CveResultsIn(h.cves, cveList) != [] && x == h.(cves := CveResultsIn(h.cves, cveList))
  {
    if hosts != [] {
      var init := hosts[..|hosts| - 1];
      KeptHostsExact(init, cveList, x);
      assert hosts == init + [hosts[|hosts| - 1]];
    }
  }

  /** Narrowing a narrowed log again changes nothing. */
  lemma {:induction false} KeptHostsIdempotent(hosts: seq<HostResult>, cveList: seq<CveId>)
    ensures KeptHosts(KeptHosts(hosts, cveList), cveList) == KeptHosts(hosts, cveList)
  {
    if hosts != [] {
      var init := hosts[..|hosts| - 1];
      var h := hosts[|hosts| - 1];
      var kept := CveResultsIn(h.cves, cveList);
      KeptHostsIdempotent(init, cveList);
      var r := KeptHosts(init, cveList);
      if kept != [] {
        CveResultsInIdempotent(h.cves, cveList);
        var h' := h.(cves := kept);
        assert (r + [h'])[..|r + [h']| - 1] == r;
        assert KeptHosts(r + [h'], cveList) == KeptHosts(r, cveList) + [h'.(cves := CveResultsIn(kept, cveList))];
        assert KeptHosts(hosts, cveList) == r + [h'];
      } else {
        assert r + [] == r;
        assert KeptHosts(hosts, cveList) == r;
      }
    }
  }

  /** The inner loop of _process_cve_task_result. */
  method FilterCveResults(cves: seq<CveResult>, cveList: seq<CveId>) returns (kept: seq<CveResult>)
    ensures kept == CveResultsIn(cves, cveList)
  {
    kept := [];
    for i := 0 to |cves|
      invariant kept == CveResultsIn(cves[..i], cveList)
    {
      assert cves[..i + 1][..i] == cves[..i];
      if cves[i].cveId in cveList {
        kept := kept + [cves[i]];
      }
    }
    assert cves[..|cves|] == cves;
  }

  /** _process_cve_task_result: narrow every host's CVE results to the listed CVEs. */
  method ProcessCveTaskResult(log: TaskLog, cveList: seq<CveId>) returns (filtered: TaskLog)
    ensures filtered == log.(taskResult := KeptHosts(log.taskResult, cveList))
  {
    var hosts := log.taskResult;
    var result: seq<HostResult> := [];
    for i := 0 to |hosts|
      invariant result == KeptHosts(hosts[..i], cveList)
    {
      assert hosts[..i + 1][..i] == hosts[..i];
      var kept := FilterCveResults(hosts[i].cves, cveList);
      if kept != [] {
        result := result + [hosts[i].(cves := kept)];
      }
    }
    assert hosts[..|hosts|] == hosts;
    filtered := log.(taskResult := result);
  }

  /** The host results whose host is listed, in order. */
  function HostsIn(hosts: seq<HostResult>, hostList: seq<HostId>): seq<HostResult>
  {
    if hosts == [] then []
    else
      var h := hosts[|hosts| - 1];
      HostsIn(hosts[..|hosts| - 1], hostList) + (if h.hostId in hostList then [h] else [])
  }

  lemma {:induction false} HostsInExact(hosts: seq<HostResult>, hostList: seq<HostId>, x: HostResult)
    ensures x in HostsIn(hosts, hostList) <==> x in hosts && x.hostId in hostList
  {
    if hosts != [] {
      var init := hosts[..|hosts| - 1];
      HostsInExact(init, hostList, x);
      assert hosts == init + [hosts[|hosts| - 1]];
    }
  }

  lemma {:induction false} HostsInIdempotent(hosts: seq<HostResult>, hostList: seq<HostId>)
    ensures HostsIn(HostsIn(hosts, hostList), hostList) == HostsIn(hosts, hostList)
  {
    if hosts != [] {
      var init := hosts[..|hosts| - 1];
      var h := hosts[|hosts| - 1];
      HostsInIdempotent(init, hostList);
      var r := HostsIn(init, hostList);
      if h.hostId in hostList {
        assert (r + [h])[..|r + [h]| - 1] == r;
        assert HostsIn(r + [h], hostList) == HostsIn(r, hostList) + [h];
        assert HostsIn(hosts, hostList) == r + [h];
      } else {
        assert r + [] == r;
        assert HostsIn(hosts, hostList) == r;
      }
    }
  }

  /** _process_repo_task_result: keep the results of the listed hosts. */
  method ProcessRepoTaskResult(log: TaskLog, hostList: seq<HostId>) returns (filtered: TaskLog)
    ensures filtered == log.(taskResult := HostsIn(log.taskResult, hostList))
  {
    var hosts := log.taskResult;
    var result: seq<HostResult> := [];
    for i := 0 to |hosts|
      invariant result == HostsIn(hosts[..i], hostList)
    {
      assert hosts[..i + 1][..i] == hosts[..i];
      if hosts[i].hostId in hostList {
        result := result + [hosts[i]];
      }
    }
    assert hosts[..|hosts|] == hosts;
    filtered := log.(taskResult := result);
  }

  // ---------------------------------------------------------------- get_task_ansible_info("log") and the result views

  /**
   * get_task_ansible_info for the log: the task's document, checked against the
   * user when a user is given; an empty log field reads as None.
   */
  method GetTaskLog(db: Database, task: TaskId, username: UserName) returns (code: Code, log: Option<TaskLog>)
    ensures !db.online ==> code == DatabaseQueryError && log == None
    ensures db.online && task in db.docs && (username == "" || db.docs[task].user == username) ==>
      code == Success && log == db.docs[task].log
    ensures db.online && !(task in db.docs && (username == "" || db.docs[task].user == username)) ==>
      code == NoData && log == None
  {
    if !db.online {
      return DatabaseQueryError, None;
    }
    if task !in db.docs || (username != "" && db.docs[task].user != username) {
      return NoData, None;
    }
    return Success, db.docs[task].log;
  }

  /** _get_cve_task_result: the saved log, narrowed to the listed CVEs when a list is given. */
  method GetCveTaskResult(db: Database, username: UserName, task: TaskId, cveList: seq<CveId>)
    returns (code: Code, result: Option<TaskLog>)
    ensures code == Success <==> db.online && task in db.docs && (username == "" || db.docs[task].user == username)
    ensures code != Success ==> result == None
    ensures code == Success ==>
      var saved := db.docs[task].log;
      result == if saved.Some? && cveList != [] then Some(saved.value.(taskResult := KeptHosts(saved.value.taskResult, cveList))) else saved
  {
    var log;
    code, log := GetTaskLog(db, task, username);
    if code != Success {
      return code, None;
    }
    result := log;
    if log.Some? && cveList != [] {
      var filtered := ProcessCveTaskResult(log.value, cveList);
      result := Some(filtered);
    }
  }

  /** _get_repo_task_result: the saved log, narrowed to the listed hosts when a list is given. */
  method GetRepoTaskResult(db: Database, username: UserName, task: TaskId, hostList: seq<HostId>)
    returns (code: Code, result: Option<TaskLog>)
    ensures code == Success <==> db.online && task in db.docs && (username == "" || db.docs[task].user == username)
    ensures code != Success ==> result == None
    ensures code == Success ==>
      var saved := db.docs[task].log;
      result == if saved.Some? && hostList != [] then Some(saved.value.(taskResult := HostsIn(saved.value.taskResult, hostList))) else saved
  {
    var log;
    code, log := GetTaskLog(db, task, username);
    if code != Success {
      return code, None;
    }
    result := log;
    if log.Some? && hostList != [] {
      var filtered := ProcessRepoTaskResult(log.value, hostList);
      result := Some(filtered);
    }
  }
}
