/**
 * Creating and deleting tasks: the rows a new CVE or repo task inserts, the
 * task's search-index document and its partial updates, and the deletion of a
 * user's tasks with everything that hangs off them.
 */
module TaskGen {
  import opened Types
  import opened Wrappers
  import opened Store
  import Dicts

  /** One host of a request: id, name and address. */
  datatype HostInfo = HostInfo(hostId: HostId, hostName: string, hostIp: string)

  /** One CVE of a CVE-task request with the hosts to fix it on. */
  datatype CveHostInfo = CveHostInfo(cveId: CveId, hostInfo: seq<HostInfo>, reboot: bool)

  /** generate_cve_task's argument. */
  datatype CveTaskRequest = CveTaskRequest(
    username: UserName, taskId: TaskId, taskName: string, taskType: TaskType, description: string,
    autoReboot: bool, createTime: int, info: seq<CveHostInfo>)

  /** generate_repo_task's argument. */
  datatype RepoTaskRequest = RepoTaskRequest(
    username: UserName, taskId: TaskId, taskName: string, taskType: TaskType, description: string,
    createTime: int, repoName: string, info: seq<HostInfo>)

  // ---------------------------------------------------------------- _gen_cve_task

  function HostIds(hosts: seq<HostInfo>): set<HostId>
  {
    if hosts == [] then {} else HostIds(hosts[..|hosts| - 1]) + {hosts[|hosts| - 1].hostId}
  }

  /** The distinct hosts over all CVEs of the request. */
  function AllHosts(info: seq<CveHostInfo>): set<HostId>
  {
    if info == [] then {} else AllHosts(info[..|info| - 1]) + HostIds(info[|info| - 1].hostInfo)
  }

  /** The distinct hosts of the CVEs that need a reboot once auto_reboot is applied. */
  function RebootHosts(info: seq<CveHostInfo>, autoReboot: bool): set<HostId>
  {
    if info == [] then {}
    else
      var e := info[|info| - 1];
      RebootHosts(info[..|info| - 1], autoReboot) + (if e.reboot && autoReboot then HostIds(e.hostInfo) else {})
  }

  /** The request's CVE list after `cve["reboot"] &= auto_reboot`: what the generator returns. */
  function Adjusted(info: seq<CveHostInfo>, autoReboot: bool): (r: seq<CveHostInfo>)
    ensures |r| == |info|
    ensures forall i :: 0 <= i < |info| ==> r[i] == info[i].(reboot := info[i].reboot && autoReboot)
  {
    seq(|info|, i requires 0 <= i < |info| => info[i].(reboot := info[i].reboot && autoReboot))
  }

  /** The CVE-task rows: progress 0 and host_num the length of the CVE's host list. */
  function CveRows(info: seq<CveHostInfo>, autoReboot: bool): (r: seq<(CveId, CveTaskRow)>)
    ensures |r| == |info|
    ensures forall i :: 0 <= i < |info| ==>
      r[i] == (info[i].cveId, CveTaskRow(info[i].reboot && autoReboot, 0, |info[i].hostInfo|))
  {
    seq(|info|, i requires 0 <= i < |info| => (info[i].cveId, CveTaskRow(info[i].reboot && autoReboot, 0, |info[i].hostInfo|)))
  }

  /** The (cve, host) keys of the unit rows of one CVE. */
  function HostPairs(c: CveId, hosts: seq<HostInfo>): seq<(CveId, HostId)>
  {
    if hosts == [] then [] else HostPairs(c, hosts[..|hosts| - 1]) + [(c, hosts[|hosts| - 1].hostId)]
  }

  /** The (cve, host) keys of all unit rows, CVE by CVE. */
  function UnitPairs(info: seq<CveHostInfo>): seq<(CveId, HostId)>
  {
    if info == [] then [] else UnitPairs(info[..|info| - 1]) + HostPairs(info[|info| - 1].cveId, info[|info| - 1].hostInfo)
  }

  lemma {:induction false} HostIdsExact(hosts: seq<HostInfo>, h: HostId)
    ensures h in HostIds(hosts) <==> exists x :: x in hosts && x.hostId == h
  {
    if hosts != [] {
      HostIdsExact(hosts[..|hosts| - 1], h);
      assert hosts == hosts[..|hosts| - 1] + [hosts[|hosts| - 1]];
    }
  }

  /** host_num counts every host that some CVE of the request names, each once. */
  lemma {:induction false} AllHostsExact(info: seq<CveHostInfo>, h: HostId)
    ensures h in AllHosts(info) <==> exists e :: e in info && h in HostIds(e.hostInfo)
  {
    if info != [] {
      AllHostsExact(info[..|info| - 1], h);
      assert info == info[..|info| - 1] + [info[|info| - 1]];
    }
  }

  /** need_reboot counts the hosts of the CVEs that need a reboot, and only when auto_reboot is on. */
  lemma {:induction false} RebootHostsExact(info: seq<CveHostInfo>, autoReboot: bool, h: HostId)
    ensures h in RebootHosts(info, autoReboot) <==> autoReboot && exists e :: e in info && e.reboot && h in HostIds(e.hostInfo)
  {
    if info != [] {
      RebootHostsExact(info[..|info| - 1], autoReboot, h);
      assert info == info[..|info| - 1] + [info[|info| - 1]];
    }
  }

  /** A task never needs more reboots than it has hosts, and none without auto_reboot. */
  lemma {:induction false} NeedRebootBounded(info: seq<CveHostInfo>, autoReboot: bool)
    ensures RebootHosts(info, autoReboot) <= AllHosts(info)
    ensures |RebootHosts(info, autoReboot)| <= |AllHosts(info)|
    ensures !autoReboot ==> RebootHosts(info, autoReboot) == {}
  {
    if info != [] {
      NeedRebootBounded(info[..|info| - 1], autoReboot);
    }
    Subset(RebootHosts(info, autoReboot), AllHosts(info));
  }

  lemma Subset<T>(a: set<T>, b: set<T>)
    requires a <= b
    ensures |a| <= |b|
  {
    assert b == a + (b - a);
  }

  lemma {:induction false} HostPairsExact(c: CveId, hosts: seq<HostInfo>, k: (CveId, HostId))
    ensures k in HostPairs(c, hosts) <==> k.0 == c && exists x :: x in hosts && x.hostId == k.1
  {
    if hosts != [] {
      HostPairsExact(c, hosts[..|hosts| - 1], k);
      assert hosts == hosts[..|hosts| - 1] + [hosts[|hosts| - 1]];
    }
  }

  /** A unit row exists for exactly the (cve, host) pairs the request lists. */
  lemma {:induction false} UnitPairsExact(info: seq<CveHostInfo>, k: (CveId, HostId))
    ensures k in UnitPairs(info) <==> exists e, x :: e in info && x in e.hostInfo && e.cveId == k.0 && x.hostId == k.1
  {
    if info != [] {
      var init := info[..|info| - 1];
      var last := info[|info| - 1];
      UnitPairsExact(init, k);
      HostPairsExact(last.cveId, last.hostInfo, k);
      assert info == init + [last];
    }
  }

  /** The rows a new CVE task inserts clash with nothing and with each other. */
  predicate CveTaskInsertable(tables: Tables, task: TaskId, cveRows: seq<(CveId, CveTaskRow)>, unitPairs: seq<(CveId, HostId)>)
  {
    && tables.online
    && task !in tables.tasks
    && (forall i, j :: 0 <= i < j < |cveRows| ==> cveRows[i].0 != cveRows[j].0)
    && Dicts.Distinct(unitPairs)
    && (forall r :: r in cveRows ==> (task, r.0) !in tables.cveTasks)
    && (forall k :: k in unitPairs ==> (task, k.0, k.1) !in tables.units)
  }

  /** The inner loop of _gen_cve_task: one CVE's host set and unit keys. */
  method CollectCveHosts(cve: CveHostInfo) returns (cveHostSet: set<HostId>, pairs: seq<(CveId, HostId)>)
    ensures cveHostSet == HostIds(cve.hostInfo) && pairs == HostPairs(cve.cveId, cve.hostInfo)
  {
    cveHostSet, pairs := {}, [];
    for j := 0 to |cve.hostInfo|
      invariant cveHostSet == HostIds(cve.hostInfo[..j])
      invariant pairs == HostPairs(cve.cveId, cve.hostInfo[..j])
    {
      assert cve.hostInfo[..j + 1][..j] == cve.hostInfo[..j];
      cveHostSet := cveHostSet + {cve.hostInfo[j].hostId};
      pairs := pairs + [(cve.cveId, cve.hostInfo[j].hostId)];
    }
    assert cve.hostInfo[..|cve.hostInfo|] == cve.hostInfo;
  }

  /**
   * The loop of _gen_cve_task: the host sets and the rows to insert, one CVE at a
   * time, with each CVE's reboot flag and-ed with auto_reboot.
   */
  method CollectCveTaskRows(info: seq<CveHostInfo>, autoReboot: bool)
    returns (adjusted: seq<CveHostInfo>, hostSet: set<HostId>, rebootSet: set<HostId>,
             cveRows: seq<(CveId, CveTaskRow)>, unitPairs: seq<(CveId, HostId)>)
    ensures adjusted == Adjusted(info, autoReboot)
    ensures hostSet == AllHosts(info) && rebootSet == RebootHosts(info, autoReboot)
    ensures cveRows == CveRows(info, autoReboot) && unitPairs == UnitPairs(info)
  {
    adjusted, hostSet, rebootSet, cveRows, unitPairs := [], {}, {}, [], [];
    for i := 0 to |info|
      invariant adjusted == Adjusted(info[..i], autoReboot)
      invariant hostSet == AllHosts(info[..i]) && rebootSet == RebootHosts(info[..i], autoReboot)
      invariant cveRows == CveRows(info[..i], autoReboot) && unitPairs == UnitPairs(info[..i])
    {
      assert info[..i + 1][..i] == info[..i];
      var cve := info[i];
      var reboot := cve.reboot && autoReboot;
      PerCveSnoc(info, autoReboot, i);
      adjusted := adjusted + [cve.(reboot := reboot)];
      cveRows := cveRows + [(cve.cveId, CveTaskRow(reboot, 0, |cve.hostInfo|))];
      var cveHostSet, pairs := CollectCveHosts(cve);
      unitPairs := unitPairs + pairs;
      hostSet := hostSet + cveHostSet;
      if reboot {
        rebootSet := rebootSet + cveHostSet;
      }
    }
    assert info[..|info|] == info;
  }

  /** One more CVE adds one adjusted entry and one CVE-task row at the end. */
  lemma PerCveSnoc(info: seq<CveHostInfo>, autoReboot: bool, i: nat)
    requires i < |info|
    ensures Adjusted(info[..i + 1], autoReboot) == Adjusted(info[..i], autoReboot) + [info[i].(reboot := info[i].reboot && autoReboot)]
    ensures CveRows(info[..i + 1], autoReboot) ==
      CveRows(info[..i], autoReboot) + [(info[i].cveId, CveTaskRow(info[i].reboot && autoReboot, 0, |info[i].hostInfo|))]
  {
    var p := info[..i + 1];
    assert p[..i] == info[..i] && p[i] == info[i];
  }

  /** The CVE-task rows keyed by (task, cve); a later row for the same CVE would replace an earlier one. */
  function CveRowMap(task: TaskId, rows: seq<(CveId, CveTaskRow)>): map<(TaskId, CveId), CveTaskRow>
  {
    if rows == [] then map[] else CveRowMap(task, rows[..|rows| - 1])[(task, rows[|rows| - 1].0) := rows[|rows| - 1].1]
  }

  /** With distinct CVE ids, every row is stored under its own key and nothing else is. */
  lemma {:induction false} CveRowMapExact(task: TaskId, rows: seq<(CveId, CveTaskRow)>, k: (TaskId, CveId))
    requires forall i, j :: 0 <= i < j < |rows| ==> rows[i].0 != rows[j].0
    ensures k in CveRowMap(task, rows) <==> k.0 == task && exists r :: r in rows && r.0 == k.1
    ensures forall r :: r in rows ==> (task, r.0) in CveRowMap(task, rows) && CveRowMap(task, rows)[(task, r.0)] == r.1
  {
    if rows != [] {
      var n := |rows| - 1;
      var init, last := rows[..n], rows[n];
      assert forall i :: 0 <= i < n ==> init[i] == rows[i];
      CveRowMapExact(task, init, k);
      assert CveRowMap(task, rows) == CveRowMap(task, init)[(task, last.0) := last.1];
      assert forall r :: r in rows <==> r in init || r == last by {
        assert rows == init + [last];
      }
      forall r | r in init ensures r.0 != last.0 {
        var i :| 0 <= i < n && init[i] == r;
      }
    }
  }

  /** The unit rows of a new task, all "unfixed". */
  function UnitMap(task: TaskId, pairs: seq<(CveId, HostId)>): map<(TaskId, CveId, HostId), CveStatus>
  {
    map k | k in pairs :: (task, k.0, k.1) := Unfixed
  }

  /** The Task row of a new CVE task. */
  function CveTaskRowOf(req: CveTaskRequest): TaskRow
  {
    TaskRow(req.username, req.taskType, req.taskName, req.description,
      req.autoReboot, req.createTime, None, |AllHosts(req.info)|, |RebootHosts(req.info, req.autoReboot)|)
  }

  /** The tables after the rows of a new CVE task are inserted. */
  function CveTaskInserted(t: Tables, req: CveTaskRequest): Tables
  {
    t.(tasks := t.tasks[req.taskId := CveTaskRowOf(req)],
       cveTasks := t.cveTasks + CveRowMap(req.taskId, CveRows(req.info, req.autoReboot)),
       units := t.units + UnitMap(req.taskId, UnitPairs(req.info)),
       docs := t.docs[req.taskId := TaskDoc(req.username, "", "", None)])
  }

  /**
   * generate_cve_task: one task row (host_num distinct hosts, need_reboot distinct
   * hosts to reboot), one CVE row per CVE with progress 0, one "unfixed" unit per
   * (cve, host), and an empty search-index document. A row that clashes leaves
   * nothing: the task row is deleted again. `indexUp` says whether the index
   * insert succeeds; when it fails, the task row, committed before the other
   * rows, stays, and the uncommitted rows are rolled back.
   */
  method GenerateCveTask(db: Database, req: CveTaskRequest, indexUp: bool) returns (code: Code, result: seq<CveHostInfo>)
    modifies db
    ensures CveTaskInsertable(old(db.Snapshot()), req.taskId, CveRows(req.info, req.autoReboot), UnitPairs(req.info)) && indexUp ==>
      code == Success && result == Adjusted(req.info, req.autoReboot) && db.Snapshot() == CveTaskInserted(old(db.Snapshot()), req)
    ensures CveTaskInsertable(old(db.Snapshot()), req.taskId, CveRows(req.info, req.autoReboot), UnitPairs(req.info)) && !indexUp ==>
      code == DatabaseInsertError && result == [] && db.Snapshot() == old(db.Snapshot()).(tasks := old(db.tasks)[req.taskId := CveTaskRowOf(req)])
    ensures !CveTaskInsertable(old(db.Snapshot()), req.taskId, CveRows(req.info, req.autoReboot), UnitPairs(req.info)) ==>
      code == DatabaseInsertError && result == [] && db.Snapshot() == old(db.Snapshot())
  {
    var adjusted, hostSet, rebootSet, cveRows, unitPairs := CollectCveTaskRows(req.info, req.autoReboot);
    var before := db.Snapshot();
    if !CveTaskInsertable(before, req.taskId, cveRows, unitPairs) {
      return DatabaseInsertError, [];
    }
    if !indexUp {
      db.tasks := db.tasks[req.taskId := CveTaskRowOf(req)];
      return DatabaseInsertError, [];
    }
    InsertCveTask(db, req);
    code, result := Success, adjusted;
  }

  /** The insert transaction of generate_cve_task. */
  method InsertCveTask(db: Database, req: CveTaskRequest)
    modifies db
    ensures db.Snapshot() == CveTaskInserted(old(db.Snapshot()), req)
  {
    var after := CveTaskInserted(db.Snapshot(), req);
    db.tasks, db.cveTasks, db.units, db.docs := after.tasks, after.cveTasks, after.units, after.docs;
  }

  /**
   * Every CVE row of a new task starts with progress 0 and host_num the length of
   * its host list; every listed (cve, host) pair has a unit, and only those.
   */
  lemma NewCveTaskRows(req: CveTaskRequest, r: (CveId, CveTaskRow), k: (CveId, HostId))
    ensures r in CveRows(req.info, req.autoReboot) <==>
      exists e :: e in req.info && r == (e.cveId, CveTaskRow(e.reboot && req.autoReboot, 0, |e.hostInfo|))
    ensures k in UnitPairs(req.info) <==>
      exists e, x :: e in req.info && x in e.hostInfo && e.cveId == k.0 && x.hostId == k.1
  {
    UnitPairsExact(req.info, k);
    var rows := CveRows(req.info, req.autoReboot);
    if r in rows {
      var i :| 0 <= i < |rows| && rows[i] == r;
      assert req.info[i] in req.info;
    }
  }

  /**
   * After generate_cve_task succeeds, each listed CVE has its row with progress 0,
   * and need_reboot <= host_num.
   */
  lemma CveTaskInsertedRows(t: Tables, req: CveTaskRequest, e: CveHostInfo)
    requires CveTaskInsertable(t, req.taskId, CveRows(req.info, req.autoReboot), UnitPairs(req.info))
    requires e in req.info
    ensures (req.taskId, e.cveId) in CveTaskInserted(t, req).cveTasks
    ensures CveTaskInserted(t, req).cveTasks[(req.taskId, e.cveId)] == CveTaskRow(e.reboot && req.autoReboot, 0, |e.hostInfo|)
    ensures CveTaskInserted(t, req).tasks[req.taskId].needReboot <= CveTaskInserted(t, req).tasks[req.taskId].hostNum
  {
    var rows := CveRows(req.info, req.autoReboot);
    var i :| 0 <= i < |req.info| && req.info[i] == e;
    assert rows[i] in rows;
    CveRowMapExact(req.taskId, rows, (req.taskId, e.cveId));
    NeedRebootBounded(req.info, req.autoReboot);
  }

  /**
   * After generate_cve_task succeeds, the units are exactly the old ones plus one
   * "unfixed" unit per listed (cve, host) pair, and no old unit is overwritten.
   */
  lemma CveTaskInsertedUnits(t: Tables, req: CveTaskRequest, k: (TaskId, CveId, HostId))
    requires CveTaskInsertable(t, req.taskId, CveRows(req.info, req.autoReboot), UnitPairs(req.info))
    ensures k in CveTaskInserted(t, req).units <==>
      k in t.units || (k.0 == req.taskId && exists e', x :: e' in req.info && x in e'.hostInfo && e'.cveId == k.1 && x.hostId == k.2)
    ensures k in t.units ==> CveTaskInserted(t, req).units[k] == t.units[k]
    ensures k !in t.units && k in CveTaskInserted(t, req).units ==> CveTaskInserted(t, req).units[k] == Unfixed
  {
    UnitPairsExact(req.info, (k.1, k.2));
  }

  // ---------------------------------------------------------------- _gen_repo_task

  function RepoHostIds(info: seq<HostInfo>): (r: seq<HostId>)
    ensures |r| == |info|
    ensures forall i :: 0 <= i < |info| ==> r[i] == info[i].hostId
  {
    seq(|info|, i requires 0 <= i < |info| => info[i].hostId)
  }

  /** The Task row of a new repo task. */
  function RepoTaskRowOf(req: RepoTaskRequest): TaskRow
  {
    TaskRow(req.username, req.taskType, req.taskName, req.description, false, req.createTime, None, |req.info|, 0)
  }

  /**
   * generate_repo_task: one task row (host_num the length of the host list,
   * need_reboot 0, auto_reboot off), one "unset" row per host with the repo name,
   * and an empty search-index document. A row that clashes leaves nothing; when
   * the index insert fails (`indexUp` false) the committed task row stays.
   */
  method GenerateRepoTask(db: Database, req: RepoTaskRequest, indexUp: bool) returns (code: Code)
    modifies db
    ensures var hosts := RepoHostIds(req.info);
      if old(db.online) && req.taskId !in old(db.tasks) && Dicts.Distinct(hosts)
         && forall h :: h in hosts ==> (req.taskId, h) !in old(db.repoUnits)
      then
        if indexUp then
          && code == Success
          && db.Snapshot() == old(db.Snapshot()).(
            tasks := old(db.tasks)[req.taskId := RepoTaskRowOf(req)],
            repoUnits := old(db.repoUnits) + map h | h in hosts :: (req.taskId, h) := RepoRow(req.repoName, Unset),
            docs := old(db.docs)[req.taskId := TaskDoc(req.username, "", "", None)])
        else
          code == DatabaseInsertError && db.Snapshot() == old(db.Snapshot()).(tasks := old(db.tasks)[req.taskId := RepoTaskRowOf(req)])
      else
        code == DatabaseInsertError && db.Snapshot() == old(db.Snapshot())
  {
    var rows := CollectRepoHosts(req.info);
    if !db.online || req.taskId in db.tasks || !Dicts.Distinct(rows)
       || exists h :: h in rows && (req.taskId, h) in db.repoUnits {
      return DatabaseInsertError;
    }
    if !indexUp {
      db.tasks := db.tasks[req.taskId := RepoTaskRowOf(req)];
      return DatabaseInsertError;
    }
    InsertRepoTask(db, req, rows);
    code := Success;
  }

  /** The host ids of the request, in order. */
  method CollectRepoHosts(info: seq<HostInfo>) returns (rows: seq<HostId>)
    ensures rows == RepoHostIds(info)
  {
    rows := [];
    for i := 0 to |info|
      invariant rows == RepoHostIds(info[..i])
    {
      rows := rows + [info[i].hostId];
    }
    assert info[..|info|] == info;
  }

  /** The insert transaction of generate_repo_task. */
  method InsertRepoTask(db: Database, req: RepoTaskRequest, hosts: seq<HostId>)
    modifies db
    ensures db.Snapshot() == old(db.Snapshot()).(
      tasks := old(db.tasks)[req.taskId := RepoTaskRowOf(req)],
      repoUnits := old(db.repoUnits) + map h | h in hosts :: (req.taskId, h) := RepoRow(req.repoName, Unset),
      docs := old(db.docs)[req.taskId := TaskDoc(req.username, "", "", None)])
  {
    db.tasks := db.tasks[req.taskId := RepoTaskRowOf(req)];
    db.repoUnits := db.repoUnits + map h | h in hosts :: (req.taskId, h) := RepoRow(req.repoName, Unset);
    db.docs := db.docs[req.taskId := TaskDoc(req.username, "", "", None)];
  }

  /** Once the insert succeeds (host ids distinct), host_num is the number of distinct hosts. */
  lemma {:induction false} RepoHostNumIsDistinctHosts(hosts: seq<HostId>)
    requires Dicts.Distinct(hosts)
    ensures |set h | h in hosts| == |hosts|
  {
    if hosts != [] {
      var init := hosts[..|hosts| - 1];
      var last := hosts[|hosts| - 1];
      assert Dicts.Distinct(init) by {
        forall i, j | 0 <= i < j < |init| ensures init[i] != init[j] {
          assert init[i] == hosts[i] && init[j] == hosts[j];
        }
      }
      RepoHostNumIsDistinctHosts(init);
      assert hosts == init + [last];
      assert last !in init by {
        forall i | 0 <= i < |init| ensures init[i] != last {
          assert hosts[i] != hosts[|hosts| - 1];
        }
      }
      assert (set h | h in hosts) == (set h | h in init) + {last};
    }
  }

  // ---------------------------------------------------------------- save_task_info / _update_task

  /** A partial update of a task document: absent fields keep their value. */
  function DocMerged(doc: TaskDoc, playbook: Option<string>, inventory: Option<string>, log: Option<TaskLog>): (r: TaskDoc)
    ensures r.user == doc.user
  {
    doc.(playbook := if playbook.Some? then playbook.value else doc.playbook,
         inventory := if inventory.Some? then inventory.value else doc.inventory,
         log := if log.Some? then log else doc.log)
  }

  /** An update that names no field changes nothing, and repeating an update changes nothing more. */
  lemma DocMergedIdempotent(doc: TaskDoc, playbook: Option<string>, inventory: Option<string>, log: Option<TaskLog>)
    ensures DocMerged(doc, None, None, None) == doc
    ensures DocMerged(DocMerged(doc, playbook, inventory, log), playbook, inventory, log) == DocMerged(doc, playbook, inventory, log)
  {
  }

  /** Two updates touching different fields commute. */
  lemma DocMergedCommutes(doc: TaskDoc, playbook: Option<string>, log: Option<TaskLog>)
    ensures DocMerged(DocMerged(doc, playbook, None, None), None, None, log)
         == DocMerged(DocMerged(doc, None, None, log), playbook, None, None)
  {
  }

  /**
   * save_task_info: the task's document must exist; its given fields are
   * overwritten, the others kept. Any failure is DATABASE_INSERT_ERROR.
   */
  method SaveTaskInfo(db: Database, task: TaskId, playbook: Option<string>, inventory: Option<string>, log: Option<TaskLog>)
    returns (code: Code)
    modifies db
    ensures code == (if old(db.online) && task in old(db.docs) then Success else DatabaseInsertError)
    ensures db.Snapshot() == old(db.Snapshot()).(
      docs := if code == Success then old(db.docs)[task := DocMerged(old(db.docs)[task], playbook, inventory, log)] else old(db.docs),
      writes := old(db.writes) + [SaveTaskInfoWrite(task, playbook, inventory, log)])
  {
    db.writes := db.writes + [SaveTaskInfoWrite(task, playbook, inventory, log)];
    if !db.online || task !in db.docs {
      return DatabaseInsertError;
    }
    db.docs := db.docs[task := DocMerged(db.docs[task], playbook, inventory, log)];
    code := Success;
  }

  // ---------------------------------------------------------------- delete_task

  /** _delete_task_from_mysql's query: the listed tasks that belong to the user, each once. */
  method QueryUserTasks(db: Database, username: UserName, taskList: seq<TaskId>) returns (found: seq<TaskId>)
    ensures forall t :: t in found <==> t in taskList && t in db.tasks && db.tasks[t].user == username
    ensures Dicts.Distinct(found)
  {
    var pending := set t | t in taskList && t in db.tasks && db.tasks[t].user == username;
    found := [];
    while pending != {}
      invariant forall t :: t in pending ==> t in taskList && t in db.tasks && db.tasks[t].user == username
      invariant forall t :: t in found <==> t in taskList && t in db.tasks && db.tasks[t].user == username && t !in pending
      invariant Dicts.Distinct(found)
      decreases |pending|
    {
      var t :| t in pending;
      assert t !in found;
      found := found + [t];
      pending := pending - {t};
    }
  }

  /**
   * The tables once the given tasks are gone: their CVE rows, units and repo rows
   * go with them (the foreign keys cascade), and so do their documents of that user.
   */
  function Purged(t: Tables, gone: set<TaskId>, username: UserName): Tables
  {
    t.(tasks := map id | id in t.tasks && id !in gone :: t.tasks[id],
       cveTasks := map k | k in t.cveTasks && k.0 !in gone :: t.cveTasks[k],
       units := map k | k in t.units && k.0 !in gone :: t.units[k],
       repoUnits := map k | k in t.repoUnits && k.0 !in gone :: t.repoUnits[k],
       docs := map id | id in t.docs && !(id in gone && t.docs[id].user == username) :: t.docs[id])
  }

  /**
   * delete_task: the user's listed tasks go with everything that hangs off them;
   * ids of other users' tasks and unknown ids are skipped. A failure leaves
   * everything in place.
   */
  method DeleteTask(db: Database, username: UserName, taskList: seq<TaskId>) returns (code: Code, deleted: seq<TaskId>)
    modifies db
    ensures forall t :: t in deleted <==> t in taskList && t in old(db.tasks) && old(db.tasks)[t].user == username
    ensures code == (if old(db.online) then Success else DatabaseDeleteError)
    ensures db.Snapshot() == if code != Success then old(db.Snapshot())
      else Purged(old(db.Snapshot()), (set t | t in deleted), username)
  {
    deleted := QueryUserTasks(db, username, taskList);
    if !db.online {
      return DatabaseDeleteError, deleted;
    }
    PurgeTasks(db, (set t | t in deleted), username);
    code := Success;
  }

  /** The delete transaction of delete_task. */
  method PurgeTasks(db: Database, gone: set<TaskId>, username: UserName)
    modifies db
    ensures db.Snapshot() == Purged(old(db.Snapshot()), gone, username)
  {
    var after := Purged(db.Snapshot(), gone, username);
    db.tasks, db.cveTasks, db.units, db.repoUnits, db.docs := after.tasks, after.cveTasks, after.units, after.repoUnits, after.docs;
  }

  /** After a deletion no row or document of a deleted task is left, and other tasks keep theirs. */
  lemma PurgedExact(t: Tables, gone: set<TaskId>, username: UserName, k: (TaskId, CveId, HostId), id: TaskId)
    requires forall x :: x in gone ==> x in t.tasks && t.tasks[x].user == username
    ensures id in Purged(t, gone, username).tasks <==> id in t.tasks && id !in gone
    ensures k in Purged(t, gone, username).units <==> k in t.units && k.0 !in gone
    ensures id in Purged(t, gone, username).docs <==> id in t.docs && !(id in gone && t.docs[id].user == username)
    ensures id in t.tasks && id !in gone ==> Purged(t, gone, username).tasks[id] == t.tasks[id]
    ensures k in t.units && k.0 !in gone ==> Purged(t, gone, username).units[k] == t.units[k]
  {
  }
}
