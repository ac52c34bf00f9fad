/**
 * The state-changing operations of the task proxy: unit statuses, CVE progress,
 * repo statuses, the host scan status and the CVE-host associations a scan
 * produces. Each public operation is one transaction: when the database cannot
 * complete it, the operation returns its error code and the tables are as before.
 */
module TaskStatusOps {
  import opened Types
  import opened Wrappers
  import opened Store
  import Dicts

  type Units = map<(TaskId, CveId, HostId), CveStatus>
  type CveTasks = map<(TaskId, CveId), CveTaskRow>
  type RepoUnits = map<(TaskId, HostId), RepoRow>

  /** The rows a (task, cve list) filter selects: every CVE of the task when the list is empty. */
  predicate Selected(task: TaskId, cveList: seq<CveId>, t: TaskId, c: CveId)
  {
    t == task && (cveList == [] || c in cveList)
  }

  // ---------------------------------------------------------------- init_cve_task

  /** Unit statuses after a task (or some of its CVEs) is started again. */
  function Restarted(units: Units, task: TaskId, cveList: seq<CveId>): Units
  {
    map k | k in units :: if Selected(task, cveList, k.0, k.1) then Running else units[k]
  }

  /** CVE rows with the progress of the selected ones reset. */
  function ProgressReset(rows: CveTasks, task: TaskId, cveList: seq<CveId>): CveTasks
  {
    map k | k in rows :: if Selected(task, cveList, k.0, k.1) then rows[k].(progress := 0) else rows[k]
  }

  /** init_cve_task: the selected units become "running" and their CVEs' progress 0, in one transaction. */
  method InitCveTask(db: Database, task: TaskId, cveList: seq<CveId>) returns (code: Code)
    requires db.Valid()
    modifies db
    ensures db.Valid()
    ensures code == (if old(db.online) then Success else DatabaseUpdateError)
    ensures db.Snapshot() == old(db.Snapshot()).(
      units := if code == Success then Restarted(old(db.units), task, cveList) else old(db.units),
      cveTasks := if code == Success then ProgressReset(old(db.cveTasks), task, cveList) else old(db.cveTasks),
      writes := old(db.writes) + [InitCveTaskWrite(task, cveList)])
  {
    db.writes := db.writes + [InitCveTaskWrite(task, cveList)];
    if !db.online {
      return DatabaseUpdateError;
    }
    db.units := Restarted(db.units, task, cveList);
    db.cveTasks := ProgressReset(db.cveTasks, task, cveList);
    code := Success;
  }

  // ---------------------------------------------------------------- set_cve_progress

  /**
   * One CVE row after a progress step. "add" counts one more finished host but
   * never passes host_num, "fill" jumps to host_num, "zero" restarts.
   */
  function Advanced(row: CveTaskRow, how: ProgressMethod): (r: CveTaskRow)
    requires !how.OtherMethod?
    ensures r.hostNum == row.hostNum && r.reboot == row.reboot
    ensures r.progress <= r.hostNum || (how == Zero && r.progress == 0)
    ensures how == Add ==> r.progress == if row.progress < row.hostNum then row.progress + 1 else row.hostNum
    ensures how == Fill ==> r.progress == row.hostNum
    ensures how == Zero ==> r.progress == 0
  {
    match how
    case Add => row.(progress := if row.progress + 1 <= row.hostNum then row.progress + 1 else row.hostNum)
    case Fill => row.(progress := row.hostNum)
    case Zero => row.(progress := 0)
  }

  function ProgressStepped(rows: CveTasks, task: TaskId, cveList: seq<CveId>, how: ProgressMethod): CveTasks
    requires !how.OtherMethod?
  {
    map k | k in rows :: if Selected(task, cveList, k.0, k.1) then Advanced(rows[k], how) else rows[k]
  }

  /**
   * set_cve_progress: steps the progress of the selected CVEs. An unknown method
   * is refused before the database is touched.
   */
  method SetCveProgress(db: Database, task: TaskId, cveList: seq<CveId>, how: ProgressMethod) returns (code: Code)
    requires db.Valid()
    modifies db
    ensures db.Valid()
    ensures code == if how.OtherMethod? then ServerError else if !old(db.online) then DatabaseUpdateError else Success
    ensures db.Snapshot() == old(db.Snapshot()).(
      cveTasks := if code == Success then ProgressStepped(old(db.cveTasks), task, cveList, how) else old(db.cveTasks),
      writes := old(db.writes) + [SetCveProgressWrite(task, cveList, how)])
  {
    db.writes := db.writes + [SetCveProgressWrite(task, cveList, how)];
    if how.OtherMethod? {
      return ServerError;
    }
    if !db.online {
      return DatabaseUpdateError;
    }
    db.cveTasks := ProgressStepped(db.cveTasks, task, cveList, how);
    code := Success;
  }

  /**
   * The progress step as written. For "add", `min` compares the two column
   * expressions with `<`, and Python then asks the resulting SQL clause for its
   * truth value, which raises TypeError before any update is sent; the other
   * steps are as intended.
   */
  function AdvancedAsWritten(row: CveTaskRow, how: ProgressMethod): (r: Result<CveTaskRow, Raised>)
    requires !how.OtherMethod?
    ensures r.Err? <==> how == Add
    ensures r.Ok? ==> r.value == Advanced(row, how)
  {
    if how == Add then Err(TypeError) else Ok(Advanced(row, how))
  }

  /**
   * As written, an "add" step raises for every row, so the progress of a CVE is
   * never counted up host by host; the intended step counts it up to host_num.
   */
  lemma AddRaisesAsWritten(row: CveTaskRow)
    requires row.progress < row.hostNum
    ensures AdvancedAsWritten(row, Add) == Err(TypeError)
    ensures Advanced(row, Add).progress == row.progress + 1
  {
  }

  // ---------------------------------------------------------------- update_cve_status

  /**
   * update_cve_status: writes the status of exactly one (task, cve, host) unit.
   * A unit that does not exist gives NO_DATA. (The "more than one row" branch of
   * the source cannot happen here: the triple is the table's primary key.)
   */
  method UpdateCveStatus(db: Database, task: TaskId, cve: CveId, host: HostId, status: CveStatus) returns (code: Code)
    requires db.Valid()
    modifies db
    ensures db.Valid()
    ensures code == if !old(db.online) then DatabaseUpdateError
                    else if (task, cve, host) !in old(db.units) then NoData
                    else Success
    ensures db.Snapshot() == old(db.Snapshot()).(
      units := if code == Success then old(db.units)[(task, cve, host) := status] else old(db.units),
      writes := old(db.writes) + [UpdateCveStatusWrite(task, cve, host, status)])
  {
    db.writes := db.writes + [UpdateCveStatusWrite(task, cve, host, status)];
    if !db.online {
      return DatabaseUpdateError;
    }
    if (task, cve, host) !in db.units {
      return NoData;
    }
    db.units := db.units[(task, cve, host) := status];
    code := Success;
  }

  // ---------------------------------------------------------------- fix_task_status

  /** The task's "running" units become "unknown"; nothing else changes. */
  function SettledUnits(units: Units, task: TaskId): Units
  {
    map k | k in units :: if k.0 == task && units[k] == Running then Unknown else units[k]
  }

  function SettledRepoUnits(units: RepoUnits, task: TaskId): RepoUnits
  {
    map k | k in units :: if k.0 == task && units[k].status == RepoRunning then units[k].(status := RepoUnknown) else units[k]
  }

  /** fix_task_status: closes a run by marking the units still running as unknown. */
  method FixTaskStatus(db: Database, task: TaskId, taskType: TaskType) returns (code: Code)
    requires db.Valid()
    modifies db
    ensures db.Valid()
    ensures code == if taskType.OtherType? then ServerError else if !old(db.online) then DatabaseUpdateError else Success
    ensures db.Snapshot() == old(db.Snapshot()).(
      units := if code == Success && taskType == CveType then SettledUnits(old(db.units), task) else old(db.units),
      repoUnits := if code == Success && taskType == RepoType then SettledRepoUnits(old(db.repoUnits), task) else old(db.repoUnits),
      writes := old(db.writes) + [FixTaskStatusWrite(task, taskType)])
  {
    db.writes := db.writes + [FixTaskStatusWrite(task, taskType)];
    if taskType.OtherType? {
      return ServerError;
    }
    if !db.online {
      return DatabaseUpdateError;
    }
    if taskType == CveType {
      db.units := SettledUnits(db.units, task);
    } else {
      db.repoUnits := SettledRepoUnits(db.repoUnits, task);
    }
    code := Success;
  }

  // ---------------------------------------------------------------- repo task statuses

  /** The repo units a (task, host list) filter selects: every host of the task when the list is empty. */
  function RepoStatusSet(units: RepoUnits, task: TaskId, hostList: seq<HostId>, status: RepoStatus): RepoUnits
  {
    map k | k in units :: if k.0 == task && (hostList == [] || k.1 in hostList) then units[k].(status := status) else units[k]
  }

  /** set_repo_status: the selected units of the task take the status. */
  method SetRepoStatus(db: Database, task: TaskId, hostList: seq<HostId>, status: RepoStatus) returns (code: Code)
    requires db.Valid()
    modifies db
    ensures db.Valid()
    ensures code == if old(db.online) then Success else DatabaseUpdateError
    ensures db.Snapshot() == old(db.Snapshot()).(
      repoUnits := if code == Success then RepoStatusSet(old(db.repoUnits), task, hostList, status) else old(db.repoUnits),
      writes := old(db.writes) + [SetRepoStatusWrite(task, hostList, status)])
  {
    db.writes := db.writes + [SetRepoStatusWrite(task, hostList, status)];
    if !db.online {
      return DatabaseUpdateError;
    }
    db.repoUnits := RepoStatusSet(db.repoUnits, task, hostList, status);
    code := Success;
  }

  /** Hosts whose id is in the list get the repo name; an empty list matches no host. */
  function RepoAssigned(hosts: map<HostId, HostRow>, repoName: string, hostList: seq<HostId>): map<HostId, HostRow>
  {
    map h | h in hosts :: if h in hostList then hosts[h].(repoName := repoName) else hosts[h]
  }

  /** set_host_repo: records on each listed host the repo that was set on it. */
  method SetHostRepo(db: Database, repoName: string, hostList: seq<HostId>) returns (code: Code)
    requires db.Valid()
    modifies db
    ensures db.Valid()
    ensures code == if old(db.online) then Success else DatabaseUpdateError
    ensures db.Snapshot() == old(db.Snapshot()).(
      hosts := if code == Success then RepoAssigned(old(db.hosts), repoName, hostList) else old(db.hosts),
      writes := old(db.writes) + [SetHostRepoWrite(repoName, hostList)])
  {
    db.writes := db.writes + [SetHostRepoWrite(repoName, hostList)];
    if !db.online {
      return DatabaseUpdateError;
    }
    db.hosts := RepoAssigned(db.hosts, repoName, hostList);
    code := Success;
  }

  // ---------------------------------------------------------------- task execute time

  /** update_task_execute_time: a task that does not exist gives NO_DATA. */
  method UpdateTaskExecuteTime(db: Database, task: TaskId, now: int) returns (code: Code)
    requires db.Valid()
    modifies db
    ensures db.Valid()
    ensures code == if !old(db.online) then DatabaseUpdateError else if task !in old(db.tasks) then NoData else Success
    ensures db.Snapshot() == old(db.Snapshot()).(
      tasks := if code == Success then old(db.tasks)[task := old(db.tasks)[task].(latestExecuteTime := Some(now))] else old(db.tasks),
      writes := old(db.writes) + [UpdateExecuteTimeWrite(task, now)])
  {
    db.writes := db.writes + [UpdateExecuteTimeWrite(task, now)];
    if !db.online {
      return DatabaseUpdateError;
    }
    if task !in db.tasks {
      return NoData;
    }
    db.tasks := db.tasks[task := db.tasks[task].(latestExecuteTime := Some(now))];
    code := Success;
  }

  // ---------------------------------------------------------------- host scan status

  /** The `update_type` argument of _update_host_scan. */
  datatype ScanUpdate = ScanInit | ScanFinish | OtherUpdate(name: string)

  /** The hosts the scan query matches: listed ones (all when the list is empty) of the user (any when "" ). */
  function ScanMatched(hosts: map<HostId, HostRow>, hostList: seq<HostId>, username: UserName): set<HostId>
  {
    set h | h in hosts && (hostList == [] || h in hostList) && (username == "" || hosts[h].user == username)
  }

  function ScanMarked(hosts: map<HostId, HostRow>, matched: set<HostId>, update: ScanUpdate, now: int): map<HostId, HostRow>
    requires !update.OtherUpdate?
  {
    map h | h in hosts ::
      if h !in matched then hosts[h]
      else if update == ScanInit then hosts[h].(scanStatus := "scanning", lastScan := now)
      else hosts[h].(scanStatus := "done")
  }

  /**
   * _update_host_scan inside its transaction: "init" marks the matched hosts
   * "scanning" with the scan time, "finish" marks them "done". A listed host
   * the query does not match makes "init" return NO_DATA with no change, while
   * "finish" still updates the hosts it matched.
   */
  method UpdateHostScan(db: Database, update: ScanUpdate, hostList: seq<HostId>, username: UserName, now: int)
    returns (code: Code)
    requires db.Valid()
    modifies db
    ensures db.Valid()
    ensures var missing := (set h | h in hostList) - ScanMatched(old(db.hosts), hostList, username);
      code == if update.OtherUpdate? then ServerError
              else if !old(db.online) then DatabaseUpdateError
              else if missing != {} && update == ScanInit then NoData
              else Success
    ensures db.Snapshot() == old(db.Snapshot()).(
      hosts := if code == Success then ScanMarked(old(db.hosts), ScanMatched(old(db.hosts), hostList, username), update, now)
               else old(db.hosts))
  {
    if update.OtherUpdate? {
      return ServerError;
    }
    if !db.online {
      return DatabaseUpdateError;
    }
    var matched := ScanMatched(db.hosts, hostList, username);
    var missing := (set h | h in hostList) - matched;
    if missing != {} && update == ScanInit {
      return NoData;
    }
    db.hosts := ScanMarked(db.hosts, matched, update, now);
    code := Success;
  }

  /** update_scan_status: the "finish" update for the listed hosts, for any user. */
  method UpdateScanStatus(db: Database, hostList: seq<HostId>) returns (code: Code)
    requires db.Valid()
    modifies db
    ensures db.Valid()
    ensures code == if old(db.online) then Success else DatabaseUpdateError
    ensures db.Snapshot() == old(db.Snapshot()).(
      hosts := if code == Success then ScanMarked(old(db.hosts), ScanMatched(old(db.hosts), hostList, ""), ScanFinish, 0)
               else old(db.hosts),
      writes := old(db.writes) + [UpdateScanStatusWrite(hostList)])
  {
    db.writes := db.writes + [UpdateScanStatusWrite(hostList)];
    code := UpdateHostScan(db, ScanFinish, hostList, "", 0);
  }

  // ---------------------------------------------------------------- scan results

  /** The association rows a scan result produces, in order: only CVEs already in the CVE table. */
  function ScanRows(hostDict: Dicts.Dict<HostId, seq<CveId>>, known: set<CveId>): seq<(HostId, CveId)>
  {
    if hostDict == [] then []
    else ScanRows(hostDict[..|hostDict| - 1], known) + HostRows(hostDict[|hostDict| - 1].0, hostDict[|hostDict| - 1].1, known)
  }

  function HostRows(host: HostId, cveList: seq<CveId>, known: set<CveId>): seq<(HostId, CveId)>
  {
    if cveList == [] then []
    else HostRows(host, cveList[..|cveList| - 1], known)
         + (if cveList[|cveList| - 1] in known then [(host, cveList[|cveList| - 1])] else [])
  }

  lemma {:induction false} HostRowsExact(host: HostId, cveList: seq<CveId>, known: set<CveId>, row: (HostId, CveId))
    ensures row in HostRows(host, cveList, known) <==> row.0 == host && row.1 in cveList && row.1 in known
  {
    if cveList != [] {
      var init := cveList[..|cveList| - 1];
      HostRowsExact(host, init, known, row);
      assert cveList == init + [cveList[|cveList| - 1]];
    }
  }

  /**
   * A scan records (host, cve) exactly when the host's scanned list names the
   * CVE and the CVE is already in the CVE table.
   */
  lemma {:induction false} ScanRowsExact(hostDict: Dicts.Dict<HostId, seq<CveId>>, known: set<CveId>, row: (HostId, CveId))
    ensures row in ScanRows(hostDict, known) <==>
            row.1 in known && exists i :: 0 <= i < |hostDict| && hostDict[i].0 == row.0 && row.1 in hostDict[i].1
  {
    if hostDict != [] {
      var n := |hostDict| - 1;
      ScanRowsExact(hostDict[..n], known, row);
      HostRowsExact(hostDict[n].0, hostDict[n].1, known, row);
      if row in ScanRows(hostDict, known) {
        if row in HostRows(hostDict[n].0, hostDict[n].1, known) {
          assert hostDict[n].0 == row.0 && row.1 in hostDict[n].1;
        } else {
          var i :| 0 <= i < n && hostDict[..n][i].0 == row.0 && row.1 in hostDict[..n][i].1;
          assert hostDict[i] == hostDict[..n][i];
        }
      } else if row.1 in known {
        forall i | 0 <= i < |hostDict| ensures !(hostDict[i].0 == row.0 && row.1 in hostDict[i].1) {
          if i < n {
            assert hostDict[i] == hostDict[..n][i];
          }
        }
      }
    }
  }

  /** The rows of the association table that survive deleting the scanned hosts' previous rows. */
  function RowsOfOtherHosts(rows: seq<(HostId, CveId)>, scanned: seq<HostId>): (r: seq<(HostId, CveId)>)
    ensures forall row :: row in r <==> row in rows && row.0 !in scanned
  {
    if rows == [] then []
    else RowsOfOtherHosts(rows[..|rows| - 1], scanned)
         + (if rows[|rows| - 1].0 in scanned then [] else [rows[|rows| - 1]])
  }

  /** _update_user_cve_status: every CVE the user has not recorded yet is added as "not reviewed". */
  function WithUserCves(userCves: map<(UserName, CveId), string>, username: UserName, found: set<CveId>)
    : (r: map<(UserName, CveId), string>)
    ensures forall k :: k in userCves ==> k in r && r[k] == userCves[k]
    ensures forall c :: c in found ==> (username, c) in r
    ensures forall k :: k in r && k !in userCves ==> k.0 == username && k.1 in found && r[k] == "not reviewed"
  {
    map k | k in userCves.Keys + (set c | c in found :: (username, c)) ::
      if k in userCves then userCves[k] else "not reviewed"
  }

  /**
   * save_scan_result: replaces the scanned hosts' CVE associations by the new
   * scan (known CVEs only), and adds the CVEs new to the user. A row for a host
   * that is not in the host table breaks the foreign key and the whole
   * transaction is rolled back.
   */
  method SaveScanResult(db: Database, username: UserName, hostDict: Dicts.Dict<HostId, seq<CveId>>) returns (code: Code)
    requires db.Valid()
    modifies db
    ensures db.Valid()
    ensures var rows := ScanRows(hostDict, old(db.cves));
      code == if !old(db.online) || exists row :: row in rows && row.0 !in old(db.hosts) then DatabaseInsertError else Success
    ensures var rows := ScanRows(hostDict, old(db.cves));
      db.Snapshot() == old(db.Snapshot()).(
        cveHostRows := if code == Success then RowsOfOtherHosts(old(db.cveHostRows), Dicts.Keys(hostDict)) + rows
                       else old(db.cveHostRows),
        userCves := if code == Success then WithUserCves(old(db.userCves), username, set row | row in rows :: row.1)
                    else old(db.userCves))
  {
    ghost var before := db.Snapshot();
    var rows, found := CollectScanRows(hostDict, db.cves);
    if !db.online || exists row :: row in rows && row.0 !in db.hosts {
      return DatabaseInsertError;
    }
    var newRows := RowsOfOtherHosts(db.cveHostRows, Dicts.Keys(hostDict)) + rows;
    var newCves := WithUserCves(db.userCves, username, found);
    db.cveHostRows := newRows;
    db.userCves := newCves;
    assert db.Snapshot() == before.(cveHostRows := newRows, userCves := newCves);
    code := Success;
  }

  /** The two loops of save_scan_result: the rows of known CVEs, host by host, and the CVEs they name. */
  method CollectScanRows(hostDict: Dicts.Dict<HostId, seq<CveId>>, known: set<CveId>)
    returns (rows: seq<(HostId, CveId)>, found: set<CveId>)
    ensures rows == ScanRows(hostDict, known)
    ensures found == set row | row in rows :: row.1
  {
    rows, found := [], {};
    for i := 0 to |hostDict|
      invariant rows == ScanRows(hostDict[..i], known)
      invariant found == set row | row in rows :: row.1
    {
      var (host, cveList) := hostDict[i];
      ghost var before := rows;
      for j := 0 to |cveList|
        invariant rows == before + HostRows(host, cveList[..j], known)
        invariant found == set row | row in rows :: row.1
      {
        if cveList[j] in known {
          rows := rows + [(host, cveList[j])];
          found := found + {cveList[j]};
        }
        assert cveList[..j + 1][..j] == cveList[..j];
      }
      assert cveList[..|cveList|] == cveList;
      assert hostDict[..i + 1][..i] == hostDict[..i];
    }
    assert hostDict[..|hostDict|] == hostDict;
  }

  // ---------------------------------------------------------------- properties of the transitions

  /**
   * fix_task_status leaves no unit of the task running; every other unit, and
   * every unit of the task that had finished, keeps its status; doing it twice
   * changes nothing more.
   */
  lemma SettledLeavesNothingRunning(units: Units, task: TaskId, k: (TaskId, CveId, HostId))
    ensures k in SettledUnits(units, task) <==> k in units
    ensures k in units && k.0 == task ==> SettledUnits(units, task)[k] != Running
    ensures k in units && (k.0 != task || units[k] != Running) ==> SettledUnits(units, task)[k] == units[k]
    ensures SettledUnits(SettledUnits(units, task), task) == SettledUnits(units, task)
  {
    var once := SettledUnits(units, task);
    assert forall x :: x in once ==> SettledUnits(once, task)[x] == once[x];
  }

  /** The same for repo units: no unit of the task stays "running", others keep their row. */
  lemma SettledRepoLeavesNothingRunning(units: RepoUnits, task: TaskId, k: (TaskId, HostId))
    ensures k in SettledRepoUnits(units, task) <==> k in units
    ensures k in units && k.0 == task ==> SettledRepoUnits(units, task)[k].status != RepoRunning
    ensures k in units ==> SettledRepoUnits(units, task)[k].repoName == units[k].repoName
    ensures k in units && (k.0 != task || units[k].status != RepoRunning) ==> SettledRepoUnits(units, task)[k] == units[k]
    ensures SettledRepoUnits(SettledRepoUnits(units, task), task) == SettledRepoUnits(units, task)
  {
    var once := SettledRepoUnits(units, task);
    assert forall x :: x in once ==> SettledRepoUnits(once, task)[x] == once[x];
  }

  /**
   * A run that is started and then closed before any callback arrives (the fault
   * path of a fix or rollback run) leaves every selected unit "unknown" and
   * every other unit as it was.
   */
  lemma RestartThenSettle(units: Units, task: TaskId, cveList: seq<CveId>, k: (TaskId, CveId, HostId))
    requires k in units
    ensures k in SettledUnits(Restarted(units, task, cveList), task)
    ensures SettledUnits(Restarted(units, task, cveList), task)[k] ==
      if Selected(task, cveList, k.0, k.1) then Unknown
      else if k.0 == task && units[k] == Running then Unknown
      else units[k]
  {
    assert k in Restarted(units, task, cveList);
  }

  /** init_cve_task touches only the selected units and CVE rows, and keeps progress within host_num. */
  lemma RestartedSelects(units: Units, rows: CveTasks, task: TaskId, cveList: seq<CveId>,
                         k: (TaskId, CveId, HostId), r: (TaskId, CveId))
    ensures k in Restarted(units, task, cveList) <==> k in units
    ensures k in units ==> Restarted(units, task, cveList)[k] == (if Selected(task, cveList, k.0, k.1) then Running else units[k])
    ensures r in ProgressReset(rows, task, cveList) <==> r in rows
    ensures r in rows && Selected(task, cveList, r.0, r.1) ==> ProgressReset(rows, task, cveList)[r].progress == 0
    ensures r in rows ==> ProgressReset(rows, task, cveList)[r].hostNum == rows[r].hostNum
    ensures Restarted(Restarted(units, task, cveList), task, cveList) == Restarted(units, task, cveList)
  {
    var once := Restarted(units, task, cveList);
    assert forall x :: x in once ==> Restarted(once, task, cveList)[x] == once[x];
  }

  /**
   * Progress counts finished hosts: after "fill" a further "add" stays at
   * host_num, and host_num "add" steps from "zero" reach it.
   */
  lemma {:induction false} AddSteps(row: CveTaskRow, n: nat)
    ensures Advanced(Advanced(row, Fill), Add) == Advanced(row, Fill)
    ensures AddN(Advanced(row, Zero), n).progress == if n <= row.hostNum then n else row.hostNum
    ensures AddN(Advanced(row, Zero), n).hostNum == row.hostNum
  {
    if n > 0 {
      AddSteps(row, n - 1);
    }
  }

  /** n successive "add" steps. */
  function AddN(row: CveTaskRow, n: nat): CveTaskRow
  {
    if n == 0 then row else Advanced(AddN(row, n - 1), Add)
  }

  /** Setting the repo status twice: the last status wins, and repo names never change. */
  lemma RepoStatusLastWins(units: RepoUnits, task: TaskId, hostList: seq<HostId>, s1: RepoStatus, s2: RepoStatus, k: (TaskId, HostId))
    ensures RepoStatusSet(RepoStatusSet(units, task, hostList, s1), task, hostList, s2) == RepoStatusSet(units, task, hostList, s2)
    ensures k in RepoStatusSet(units, task, hostList, s1) <==> k in units
    ensures k in units ==> RepoStatusSet(units, task, hostList, s1)[k].repoName == units[k].repoName
    ensures k in units && k.0 == task && (hostList == [] || k.1 in hostList) ==> RepoStatusSet(units, task, hostList, s1)[k].status == s1
  {
    var once := RepoStatusSet(units, task, hostList, s1);
    assert forall x :: x in once ==> RepoStatusSet(once, task, hostList, s2)[x] == RepoStatusSet(units, task, hostList, s2)[x];
  }

  /**
   * A scan that starts and then finishes on the same hosts leaves them "done"
   * with the start time as their last scan time.
   */
  lemma ScanInitThenFinish(hosts: map<HostId, HostRow>, matched: set<HostId>, now: int, later: int, h: HostId)
    requires h in hosts
    ensures h in ScanMarked(ScanMarked(hosts, matched, ScanInit, now), matched, ScanFinish, later)
    ensures h in matched ==>
      ScanMarked(ScanMarked(hosts, matched, ScanInit, now), matched, ScanFinish, later)[h] == hosts[h].(scanStatus := "done", lastScan := now)
    ensures h !in matched ==> ScanMarked(ScanMarked(hosts, matched, ScanInit, now), matched, ScanFinish, later)[h] == hosts[h]
  {
    assert h in ScanMarked(hosts, matched, ScanInit, now);
  }
}
