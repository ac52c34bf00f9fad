/**
 * The task managers: the base manager's paths, check-item recording and result
 * saving, and the CVE-fix manager that opens a run, turns the callback's records
 * into the run log and closes the run.
 */
module Managers {
  import opened Types
  import opened Wrappers
  import opened Store
  import Dicts
  import Strs
  import TaskStatusOps
  import TaskGen
  import Callbacks

  /** `os.path.join(dir, name)` for one relative or absolute component. */
  function PathJoin(dir: string, name: string): (r: string)
    ensures |name| <= |r| && r[|r| - |name|..] == name
    ensures !Strs.StartsWith(name, "/") ==> Strs.StartsWith(r, dir)
  {
    if Strs.StartsWith(name, "/") then name
    else if dir == "" || dir[|dir| - 1] == '/' then dir + name
    else dir + "/" + name
  }

  // ---------------------------------------------------------------- check items

  /** One check item per entry, in insertion order, passed iff the runner reported success. */
  function CheckItemsOf(checks: Dicts.Dict<string, Callbacks.Entry>): seq<CheckItem>
  {
    if checks == [] then []
    else
      var n := |checks| - 1;
      CheckItemsOf(checks[..n]) + [CheckItem(checks[n].0, checks[n].1.status == ByRunner(RunnerSucceed))]
  }

  predicate CheckFailed(checks: Dicts.Dict<string, Callbacks.Entry>)
  {
    exists i :: 0 <= i < |checks| && checks[i].1.status != ByRunner(RunnerSucceed)
  }

  /** The i-th item names the i-th check and records whether it succeeded. */
  lemma {:induction false} CheckItemsExact(checks: Dicts.Dict<string, Callbacks.Entry>)
    ensures |CheckItemsOf(checks)| == |checks|
    ensures forall i :: 0 <= i < |checks| ==>
      CheckItemsOf(checks)[i] == CheckItem(checks[i].0, checks[i].1.status == ByRunner(RunnerSucceed))
  {
    if checks != [] {
      var n := |checks| - 1;
      CheckItemsExact(checks[..n]);
    }
  }

  /**
   * _record_check_info: appends one item per check, in order, and marks the host
   * "fail" when a check did not succeed; it never sets "succeed". No checks (None
   * or an empty dict) leave the record as it was.
   */
  method RecordCheckInfo(info: Option<Dicts.Dict<string, Callbacks.Entry>>, res: HostResult) returns (r: HostResult)
    ensures info.None? ==> r == res
    ensures info.Some? ==>
      r == res.(checkItems := res.checkItems + CheckItemsOf(info.value),
                status := if CheckFailed(info.value) then Fail else res.status)
  {
    r := res;
    if info.None? || info.value == [] {
      return;
    }
    var checks := info.value;
    for i := 0 to |checks|
      invariant r == res.(checkItems := res.checkItems + CheckItemsOf(checks[..i]),
                          status := if CheckFailed(checks[..i]) then Fail else res.status)
    {
      var (name, entry) := checks[i];
      assert checks[..i + 1][..i] == checks[..i];
      assert checks[..i + 1][i] == checks[i];
      var passed: bool;
      if entry.status != ByRunner(RunnerSucceed) {
        r := r.(status := Fail);
        passed := false;
      } else {
        passed := true;
      }
      r := r.(checkItems := r.checkItems + [CheckItem(name, passed)]);
      if CheckFailed(checks[..i + 1]) && !CheckFailed(checks[..i]) {
        var j :| 0 <= j < i + 1 && checks[..i + 1][j].1.status != ByRunner(RunnerSucceed);
        assert j == i;
      }
      if CheckFailed(checks[..i]) {
        var j :| 0 <= j < i && checks[..i][j].1.status != ByRunner(RunnerSucceed);
        assert checks[..i + 1][j] == checks[..i][j];
      }
    }
    assert checks[..|checks|] == checks;
  }

  // ---------------------------------------------------------------- fix results

  /** What post_handle knows of one host: task_info['host'][name]. */
  datatype FixHost = FixHost(hostId: HostId, hostIp: string, cves: seq<CveId>)

  /**
   * One result per CVE assigned to the host, in the host's order: the callback's
   * log and status, or "" and "unknown" when no step of that CVE was reported.
   */
  function FixEntries(info: map<string, Callbacks.Entry>, cves: seq<CveId>): seq<CveResult>
  {
    if cves == [] then []
    else
      var n := |cves| - 1;
      var c := cves[n];
      FixEntries(info, cves[..n]) +
        [if c in info then CveResult(c, info[c].info, info[c].status) else CveResult(c, "", ByCve(Unknown))]
  }

  predicate FixFailed(info: map<string, Callbacks.Entry>, cves: seq<CveId>)
  {
    exists i :: 0 <= i < |cves| && (cves[i] !in info || info[cves[i]].status == ByCve(Unfixed))
  }

  lemma {:induction false} FixEntriesExact(info: map<string, Callbacks.Entry>, cves: seq<CveId>)
    ensures |FixEntries(info, cves)| == |cves|
    ensures forall i :: 0 <= i < |cves| ==> FixEntries(info, cves)[i].cveId == cves[i]
    ensures forall i :: 0 <= i < |cves| ==>
      FixEntries(info, cves)[i] == if cves[i] in info then CveResult(cves[i], info[cves[i]].info, info[cves[i]].status)
                                   else CveResult(cves[i], "", ByCve(Unknown))
  {
    if cves != [] {
      FixEntriesExact(info, cves[..|cves| - 1]);
    }
  }

  /**
   * _record_fix_info: appends one result per assigned CVE; a CVE with no result,
   * or with result "unfixed", marks the host "fail"; "fixed" leaves it alone.
   */
  method RecordFixInfo(info: map<string, Callbacks.Entry>, res: HostResult, cves: seq<CveId>) returns (r: HostResult)
    ensures r == res.(cves := res.cves + FixEntries(info, cves), status := if FixFailed(info, cves) then Fail else res.status)
  {
    r := res;
    for i := 0 to |cves|
      invariant r == res.(cves := res.cves + FixEntries(info, cves[..i]),
                          status := if FixFailed(info, cves[..i]) then Fail else res.status)
    {
      var c := cves[i];
      assert cves[..i + 1][..i] == cves[..i];
      assert cves[..i + 1][i] == c;
      var log: string;
      var fixResult: Recorded;
      if c !in info {
        r := r.(status := Fail);
        log, fixResult := "", ByCve(Unknown);
      } else {
        log, fixResult := info[c].info, info[c].status;
        if fixResult == ByCve(Unfixed) {
          r := r.(status := Fail);
        }
      }
      r := r.(cves := r.cves + [CveResult(c, log, fixResult)]);
      if FixFailed(info, cves[..i + 1]) && !FixFailed(info, cves[..i]) {
        var j :| 0 <= j < i + 1 && (cves[..i + 1][j] !in info || info[cves[..i + 1][j]].status == ByCve(Unfixed));
        assert j == i;
      }
      if FixFailed(info, cves[..i]) {
        var j :| 0 <= j < i && (cves[..i][j] !in info || info[cves[..i][j]].status == ByCve(Unfixed));
        assert cves[..i + 1][j] == cves[..i][j];
      }
    }
    assert cves[..|cves|] == cves;
  }

  /** `check.get(host_name)`. */
  function ChecksOf(check: Callbacks.Checks, name: string): Option<Dicts.Dict<string, Callbacks.Entry>>
  {
    if name in check then Some(check[name]) else None
  }

  /** The run-log entry of one host. */
  function HostResultOf(name: string, host: FixHost, result: Callbacks.Results, check: Callbacks.Checks): HostResult
  {
    var info := if name in result then result[name] else map[];
    var checks := if name in check then check[name] else [];
    HostResult(host.hostId, name, host.hostIp,
               if CheckFailed(checks) || FixFailed(info, host.cves) then Fail else Succeed,
               CheckItemsOf(checks), FixEntries(info, host.cves))
  }

  /**
   * A host's entry is "fail" exactly when one of its checks failed or one of its
   * CVEs was not reported or is still unfixed; it lists the host's checks and
   * CVEs in order.
   */
  lemma HostResultStatus(name: string, host: FixHost, result: Callbacks.Results, check: Callbacks.Checks)
    ensures var info := if name in result then result[name] else map[];
      var checks := if name in check then check[name] else [];
      && (HostResultOf(name, host, result, check).status == Fail <==>
            (exists i :: 0 <= i < |checks| && checks[i].1.status != ByRunner(RunnerSucceed)) ||
            (exists i :: 0 <= i < |host.cves| && (host.cves[i] !in info || info[host.cves[i]].status == ByCve(Unfixed))))
      && |HostResultOf(name, host, result, check).cves| == |host.cves|
      && (forall i :: 0 <= i < |host.cves| ==> HostResultOf(name, host, result, check).cves[i].cveId == host.cves[i])
      && |HostResultOf(name, host, result, check).checkItems| == |checks|
      && (forall i :: 0 <= i < |checks| ==> HostResultOf(name, host, result, check).checkItems[i].item == checks[i].0)
  {
    var info := if name in result then result[name] else map[];
    var checks := if name in check then check[name] else [];
    FixEntriesExact(info, host.cves);
    CheckItemsExact(checks);
  }

  /** The run log's task_result: one entry per host of the task, in the task's host order. */
  function HostResults(hosts: Dicts.Dict<string, FixHost>, result: Callbacks.Results, check: Callbacks.Checks): seq<HostResult>
  {
    if hosts == [] then []
    else
      var n := |hosts| - 1;
      HostResults(hosts[..n], result, check) + [HostResultOf(hosts[n].0, hosts[n].1, result, check)]
  }

  /** post_handle stops with an error at a host that has CVEs but no result at all. */
  predicate Crashes(hosts: Dicts.Dict<string, FixHost>, result: Callbacks.Results)
  {
    exists i :: 0 <= i < |hosts| && hosts[i].0 !in result && hosts[i].1.cves != []
  }

  lemma NoCrashSnoc(hosts: Dicts.Dict<string, FixHost>, result: Callbacks.Results, i: nat)
    requires i < |hosts| && !Crashes(hosts[..i], result)
    requires !(hosts[i].0 !in result && hosts[i].1.cves != [])
    ensures !Crashes(hosts[..i + 1], result)
  {
    var p := hosts[..i + 1];
    forall j | 0 <= j < |p|
      ensures !(p[j].0 !in result && p[j].1.cves != [])
    {
      if j < i {
        assert hosts[..i][j] == p[j];
      }
    }
  }

  /** The body of post_handle's loop for a host that does not stop it. */
  method HostEntry(name: string, host: FixHost, result: Callbacks.Results, check: Callbacks.Checks) returns (r: HostResult)
    ensures r == HostResultOf(name, host, result, check)
  {
    r := HostResult(host.hostId, name, host.hostIp, Succeed, [], []);
    r := RecordCheckInfo(ChecksOf(check, name), r);
    r := RecordFixInfo(if name in result then result[name] else map[], r, host.cves);
  }

  /** The loop of post_handle: the log entries of the hosts, up to the first host that stops it. */
  method BuildTaskResult(hosts: Dicts.Dict<string, FixHost>, result: Callbacks.Results, check: Callbacks.Checks)
    returns (crashed: bool, taskResult: seq<HostResult>)
    ensures crashed == Crashes(hosts, result)
    ensures !crashed ==> taskResult == HostResults(hosts, result, check)
  {
    taskResult := [];
    for i := 0 to |hosts|
      invariant taskResult == HostResults(hosts[..i], result, check)
      invariant !Crashes(hosts[..i], result)
    {
      var (name, host) := hosts[i];
      assert hosts[..i + 1][..i] == hosts[..i];
      if name !in result && host.cves != [] {
        return true, taskResult;
      }
      NoCrashSnoc(hosts, result, i);
      var temp := HostEntry(name, host, result, check);
      taskResult := taskResult + [temp];
    }
    assert hosts[..|hosts|] == hosts;
    crashed := false;
  }

  // ---------------------------------------------------------------- store effects

  /** The store after save_task_info(task, log=...). */
  function LogSaved(t: Tables, task: TaskId, log: TaskLog): Tables
  {
    t.(docs := if t.online && task in t.docs then t.docs[task := TaskGen.DocMerged(t.docs[task], None, None, Some(log))] else t.docs,
       writes := t.writes + [SaveTaskInfoWrite(task, None, None, Some(log))])
  }

  /** The store after fault_handle: progress filled for every CVE, then running units made unknown. */
  function FaultHandled(t: Tables, task: TaskId): Tables
  {
    t.(cveTasks := if t.online then TaskStatusOps.ProgressStepped(t.cveTasks, task, [], Fill) else t.cveTasks,
       units := if t.online then TaskStatusOps.SettledUnits(t.units, task) else t.units,
       writes := t.writes + [SetCveProgressWrite(task, [], Fill), FixTaskStatusWrite(task, CveType)])
  }

  /**
   * Once a run is closed, no unit of the task is running and every CVE of the
   * task shows all of its hosts done; other tasks are untouched.
   */
  lemma FaultHandledClosesRun(t: Tables, task: TaskId, k: (TaskId, CveId, HostId), r: (TaskId, CveId))
    requires t.online
    ensures k in FaultHandled(t, task).units <==> k in t.units
    ensures k in t.units && k.0 == task ==> FaultHandled(t, task).units[k] != Running
    ensures k in t.units && k.0 != task ==> FaultHandled(t, task).units[k] == t.units[k]
    ensures r in FaultHandled(t, task).cveTasks <==> r in t.cveTasks
    ensures r in t.cveTasks && r.0 == task ==> FaultHandled(t, task).cveTasks[r].progress == t.cveTasks[r].hostNum
    ensures r in t.cveTasks && r.0 != task ==> FaultHandled(t, task).cveTasks[r] == t.cveTasks[r]
  {
  }

  /** The store after pre_handle: the run opened, then (only when that worked) the execute time. */
  function RunOpened(t: Tables, task: TaskId, now: int): Tables
  {
    if !t.online then t.(writes := t.writes + [InitCveTaskWrite(task, [])])
    else
      t.(units := TaskStatusOps.Restarted(t.units, task, []),
         cveTasks := TaskStatusOps.ProgressReset(t.cveTasks, task, []),
         tasks := if task in t.tasks then t.tasks[task := t.tasks[task].(latestExecuteTime := Some(now))] else t.tasks,
         writes := t.writes + [InitCveTaskWrite(task, []), UpdateExecuteTimeWrite(task, now)])
  }

  // ---------------------------------------------------------------- the CVE-fix manager

  class CveFixManager {
    const taskId: TaskId
    /** task_info['host']: host name to host id, ip and assigned CVEs, in insertion order. */
    const hosts: Dicts.Dict<string, FixHost>
    const inventoryPath: string
    const playbookPath: string
    /** The clock reading taken when the manager is built. */
    const curTime: int

    constructor (taskId: TaskId, hosts: Dicts.Dict<string, FixHost>, inventoryDir: string, playbookDir: string, now: int)
      ensures this.taskId == taskId && this.hosts == hosts && curTime == now
      ensures inventoryPath == PathJoin(inventoryDir, taskId)
      ensures playbookPath == PathJoin(playbookDir, taskId + ".yml")
    {
      this.taskId := taskId;
      this.hosts := hosts;
      inventoryPath := PathJoin(inventoryDir, taskId);
      playbookPath := PathJoin(playbookDir, taskId + ".yml");
      curTime := now;
    }

    /**
     * pre_handle: every unit of the task "running" and its progress 0; a failure
     * there stops the run before the execute time is touched, while a failure to
     * record the execute time does not.
     */
    method PreHandle(db: Database) returns (ok: bool)
      requires db.Valid()
      modifies db
      ensures db.Valid()
      ensures ok == old(db.online)
      ensures db.Snapshot() == RunOpened(old(db.Snapshot()), taskId, curTime)
    {
      var code := TaskStatusOps.InitCveTask(db, taskId, []);
      if code != Success {
        return false;
      }
      var timeCode := TaskStatusOps.UpdateTaskExecuteTime(db, taskId, curTime);
      ok := true;
    }

    /** _save_result: the run log goes into the task document's log field only. */
    method SaveResult(db: Database, taskResult: seq<HostResult>, taskType: TaskType)
      requires db.Valid()
      modifies db
      ensures db.Valid()
      ensures db.Snapshot() == LogSaved(old(db.Snapshot()), taskId, TaskLog(taskId, taskType, curTime, taskResult))
    {
      var code := TaskGen.SaveTaskInfo(db, taskId, None, None, Some(TaskLog(taskId, taskType, curTime, taskResult)));
    }

    /** fault_handle: fill the progress of every CVE, then close the units still running. */
    method FaultHandle(db: Database)
      requires db.Valid()
      modifies db
      ensures db.Valid()
      ensures db.Snapshot() == FaultHandled(old(db.Snapshot()), taskId)
    {
      var filled := TaskStatusOps.SetCveProgress(db, taskId, [], Fill);
      var fixed := TaskStatusOps.FixTaskStatus(db, taskId, CveType);
    }

    /**
     * post_handle: one log entry per host of the task, saved as the run log, and
     * then fault_handle. A host with CVEs but no callback result at all stops it
     * with an error before anything is written.
     */
    method PostHandle(db: Database, result: Callbacks.Results, check: Callbacks.Checks) returns (crashed: bool)
      requires db.Valid()
      modifies db
      ensures db.Valid()
      ensures crashed == Crashes(hosts, result)
      ensures crashed ==> db.Snapshot() == old(db.Snapshot())
      ensures !crashed ==>
        db.Snapshot() == FaultHandled(LogSaved(old(db.Snapshot()), taskId,
                                               TaskLog(taskId, CveType, curTime, HostResults(hosts, result, check))), taskId)
    {
      var taskResult;
      crashed, taskResult := BuildTaskResult(hosts, result, check);
      if crashed {
        return;
      }
      SaveResult(db, taskResult, CveType);
      FaultHandle(db);
    }

    /**
     * execute_task: handle, then post_handle, and nothing else. `handle` runs the
     * playbook with a fix callback; the runner has delivered its events into `cb`.
     */
    method ExecuteTask(db: Database, cb: Callbacks.CveCallback) returns (crashed: bool)
      requires db.Valid()
      modifies db
      ensures db.Valid()
      ensures crashed == Crashes(hosts, cb.result)
      ensures crashed ==> db.Snapshot() == old(db.Snapshot())
      ensures !crashed ==>
        db.Snapshot() == FaultHandled(LogSaved(old(db.Snapshot()), taskId,
                                               TaskLog(taskId, CveType, curTime, HostResults(hosts, cb.result, cb.checkResult))), taskId)
    {
      crashed := PostHandle(db, cb.result, cb.checkResult);
    }
  }
}
