/**
 * The runner callbacks of the task handlers. Every step the runner finishes on a
 * host arrives as one event: the callback first records the step's output and
 * runner status under result[host][step], then either turns the outcome into a
 * domain status that it writes to the store, or files the entry as a check item,
 * or leaves it where it is.
 *
 * The three runner hooks (unreachable, ok, failed) of each callback differ only
 * in the outcome they pass on, so each callback has one `OnOutcome` method taking
 * the outcome as a parameter. Events arrive one at a time.
 */
module Callbacks {
  import opened Types
  import opened Wrappers
  import opened Store
  import Dicts
  import Strs
  import TaskStatusOps

  /** How the runner ended a step. */
  datatype Outcome = Unreachable | Succeeded | Failed

  /** The runner's report of one step on one host: host name, step name and the raw result fields. */
  datatype RunnerResult = RunnerResult(hostName: string, taskName: string, fields: map<string, string>)

  /** One recorded step: its output and its status ({"info": ..., "status": ...}). */
  datatype Entry = Entry(info: string, status: Recorded)

  /** result[host][step]; only looked up by key, so kept as maps. */
  type Results = map<string, map<string, Entry>>

  /** check_result[host][step]; the manager lists check items in insertion order, so the inner dicts keep it. */
  type Checks = map<string, Dicts.Dict<string, Entry>>

  // ---------------------------------------------------------------- outcome mappings

  /** The result field holding an outcome's output: "msg", "stdout" or "stderr". */
  function OutputField(o: Outcome): (f: string)
    ensures f == "stdout" <==> o == Succeeded
  {
    match o
    case Unreachable => "msg"
    case Succeeded => "stdout"
    case Failed => "stderr"
  }

  /** The runner status recorded first, for every kind of callback. */
  function RunnerStatusOf(o: Outcome): (s: RunnerStatus)
    ensures s == RunnerSucceed <==> o == Succeeded
    ensures s == RunnerUnreachable <==> o == Unreachable
  {
    match o
    case Unreachable => RunnerUnreachable
    case Succeeded => RunnerSucceed
    case Failed => RunnerFail
  }

  /** CveFixCallback: only a step that ran through fixes the CVE. */
  function FixStatus(o: Outcome): (s: CveStatus)
    ensures s == Fixed <==> o == Succeeded
    ensures s == Fixed || s == Unfixed
  {
    if o == Succeeded then Fixed else Unfixed
  }

  /** CveRollbackCallback: a rollback that ran through leaves the CVE unfixed again. */
  function RollbackStatus(o: Outcome): (s: CveStatus)
    ensures s == Unfixed <==> o == Succeeded
    ensures s == Fixed || s == Unfixed
  {
    if o == Succeeded then Unfixed else Fixed
  }

  /** The rollback mapping is the fix mapping with the two statuses swapped. */
  lemma RollbackInvertsFix(o: Outcome)
    ensures RollbackStatus(o) != FixStatus(o)
    ensures RollbackStatus(o) == Fixed <==> FixStatus(o) == Unfixed
  {
  }

  /** RepoSetCallback: only a step that ran through sets the repo. */
  function RepoStatusOf(o: Outcome): (s: RepoStatus)
    ensures s == Set <==> o == Succeeded
    ensures s == Set || s == Unset
  {
    if o == Succeeded then Set else Unset
  }

  /**
   * A host dict as the handlers receive it: name, id, ip and, for a repo task,
   * the repo to set (a dict without "repo_name" has None).
   */
  datatype HostDict = HostDict(hostName: string, hostId: HostId, hostIp: string, repoName: Option<string>)

  // ---------------------------------------------------------------- the result dictionaries

  /** `result[host][step] = entry` on a dict of dicts that creates a missing host. */
  function WithEntry(results: Results, host: string, step: string, e: Entry): (r: Results)
    ensures host in r && step in r[host] && r[host][step] == e
    ensures forall h :: h in r <==> h in results || h == host
    ensures forall h :: h in results && h != host ==> r[h] == results[h]
    ensures host in results ==> forall s :: s in results[host] && s != step ==> s in r[host] && r[host][s] == results[host][s]
  {
    results[host := (if host in results then results[host] else map[])[step := e]]
  }

  /** Writing the same step twice keeps only the second entry. */
  lemma WithEntryTwice(results: Results, host: string, step: string, e1: Entry, e2: Entry)
    ensures WithEntry(WithEntry(results, host, step, e1), host, step, e2) == WithEntry(results, host, step, e2)
  {
    var inner := if host in results then results[host] else map[];
    assert inner[step := e1][step := e2] == inner[step := e2];
  }

  /** What the base callback's _record_info stores for an outcome: the output and the runner status. */
  function RunnerEntry(r: RunnerResult, o: Outcome): Entry
    requires OutputField(o) in r.fields
  {
    Entry(r.fields[OutputField(o)], ByRunner(RunnerStatusOf(o)))
  }

  /** `result[host].pop(step)`. */
  function Popped(results: Results, host: string, step: string): Results
    requires host in results
  {
    results[host := results[host] - {step}]
  }

  /** `check_result[host][step] = <the popped entry>`. */
  function Filed(results: Results, checks: Checks, host: string, step: string): Checks
    requires host in results && step in results[host]
  {
    checks[host := Dicts.Put(if host in checks then checks[host] else [], step, results[host][step])]
  }

  /**
   * Filing a check step moves its entry unchanged: it leaves result[host],
   * appears under check_result[host] (after the host's earlier check items when
   * it is new), and no other host or step is touched.
   */
  lemma FiledMovesEntry(results: Results, checks: Checks, host: string, step: string, other: string)
    requires host in results && step in results[host]
    ensures step !in Popped(results, host, step)[host]
    ensures Dicts.Get(Filed(results, checks, host, step)[host], step) == Some(results[host][step])
    ensures var before := if host in checks then checks[host] else [];
      Dicts.Keys(Filed(results, checks, host, step)[host]) ==
        if step in Dicts.Keys(before) then Dicts.Keys(before) else Dicts.Keys(before) + [step]
    ensures other != step ==> Dicts.Get(Filed(results, checks, host, step)[host], other) == Dicts.Get(if host in checks then checks[host] else [], other)
    ensures forall h :: h != host ==> (h in Filed(results, checks, host, step) <==> h in checks)
    ensures forall s :: s in results[host] && s != step ==> s in Popped(results, host, step)[host]
  {
    var before := if host in checks then checks[host] else [];
    Dicts.PutKeys(before, step, results[host][step]);
    if other != step {
      Dicts.PutOther(before, step, results[host][step], other);
    }
  }

  // ---------------------------------------------------------------- CVE fix and rollback

  /**
   * The store after the two writes of one CVE step: the unit's status (a missing
   * unit is left alone) and one "add" progress step for the CVE, issued whatever
   * the first write returned. The step is the intended one of
   * `TaskStatusOps.Advanced`; as written it raises (`TaskStatusOps.AdvancedAsWritten`).
   */
  function CveStepApplied(t: Tables, task: TaskId, cve: CveId, host: HostId, status: CveStatus): Tables
  {
    var unitWritten := t.online && (task, cve, host) in t.units;
    t.(units := if unitWritten then t.units[(task, cve, host) := status] else t.units,
       cveTasks := if t.online then TaskStatusOps.ProgressStepped(t.cveTasks, task, [cve], Add) else t.cveTasks,
       writes := t.writes + [UpdateCveStatusWrite(task, cve, host, status), SetCveProgressWrite(task, [cve], Add)])
  }

  /**
   * One CVE step writes exactly two requests; it changes at most the status of its
   * own unit and the progress of its own CVE, which goes one host further (capped
   * at host_num) even when the unit is missing.
   */
  lemma CveStepTouchesOneUnit(t: Tables, task: TaskId, cve: CveId, host: HostId, status: CveStatus,
                              k: (TaskId, CveId, HostId), r: (TaskId, CveId))
    ensures CveStepApplied(t, task, cve, host, status).writes ==
      t.writes + [UpdateCveStatusWrite(task, cve, host, status), SetCveProgressWrite(task, [cve], Add)]
    ensures k in CveStepApplied(t, task, cve, host, status).units <==> k in t.units
    ensures k in t.units && k != (task, cve, host) ==> CveStepApplied(t, task, cve, host, status).units[k] == t.units[k]
    ensures t.online && (task, cve, host) in t.units ==> CveStepApplied(t, task, cve, host, status).units[(task, cve, host)] == status
    ensures r in CveStepApplied(t, task, cve, host, status).cveTasks <==> r in t.cveTasks
    ensures r in t.cveTasks && r != (task, cve) ==> CveStepApplied(t, task, cve, host, status).cveTasks[r] == t.cveTasks[r]
    ensures t.online && (task, cve) in t.cveTasks ==>
      CveStepApplied(t, task, cve, host, status).cveTasks[(task, cve)].progress ==
        if t.cveTasks[(task, cve)].progress < t.cveTasks[(task, cve)].hostNum then t.cveTasks[(task, cve)].progress + 1
        else t.cveTasks[(task, cve)].hostNum
    ensures !t.online ==> CveStepApplied(t, task, cve, host, status).units == t.units
    ensures !t.online ==> CveStepApplied(t, task, cve, host, status).cveTasks == t.cveTasks
  {
  }

  /** CveFixCallback, and CveRollbackCallback when `rollback` is set. */
  class CveCallback {
    const taskId: TaskId
    /** True for the rollback callback, which only inverts the outcome mapping. */
    const rollback: bool
    /** The CVEs of the task (task_info['cve']). */
    const cves: set<CveId>
    /** task_info['host'][host_name]['host_id']. */
    const hostIds: map<string, HostId>
    var result: Results
    var checkResult: Checks

    constructor (taskId: TaskId, rollback: bool, cves: set<CveId>, hostIds: map<string, HostId>)
      ensures this.taskId == taskId && this.rollback == rollback && this.cves == cves && this.hostIds == hostIds
      ensures result == map[] && checkResult == map[]
    {
      this.taskId := taskId;
      this.rollback := rollback;
      this.cves := cves;
      this.hostIds := hostIds;
      result := map[];
      checkResult := map[];
    }

    /** The domain status an outcome stands for in this callback. */
    function DomainStatus(o: Outcome): CveStatus
    {
      if rollback then RollbackStatus(o) else FixStatus(o)
    }

    /**
     * save_to_db: a step named after a CVE of the task gets the domain status in
     * place of the runner status and issues the two store writes; any other step
     * is filed as a check item with no write.
     */
    method SaveToDb(db: Database, cveId: CveId, hostName: string, status: CveStatus)
      requires db.Valid()
      requires hostName in result && cveId in result[hostName]
      requires cveId in cves ==> hostName in hostIds
      modifies this, db
      ensures db.Valid()
      ensures cveId in cves ==>
        && result == WithEntry(old(result), hostName, cveId, old(result)[hostName][cveId].(status := ByCve(status)))
        && checkResult == old(checkResult)
        && db.Snapshot() == CveStepApplied(old(db.Snapshot()), taskId, cveId, hostIds[hostName], status)
      ensures cveId !in cves ==>
        && result == Popped(old(result), hostName, cveId)
        && checkResult == Filed(old(result), old(checkResult), hostName, cveId)
        && db.Snapshot() == old(db.Snapshot())
    {
      if cveId in cves {
        result := WithEntry(result, hostName, cveId, result[hostName][cveId].(status := ByCve(status)));
        var hostId := hostIds[hostName];
        var updated := TaskStatusOps.UpdateCveStatus(db, taskId, cveId, hostId, status);
        var stepped := TaskStatusOps.SetCveProgress(db, taskId, [cveId], Add);
      } else {
        checkResult := Filed(result, checkResult, hostName, cveId);
        result := Popped(result, hostName, cveId);
      }
    }

    /** v2_runner_on_unreachable / v2_runner_on_ok / v2_runner_on_failed. */
    method OnOutcome(db: Database, r: RunnerResult, o: Outcome)
      requires db.Valid()
      requires OutputField(o) in r.fields
      requires r.taskName in cves ==> r.hostName in hostIds
      modifies this, db
      ensures db.Valid()
      ensures r.taskName in cves ==>
        && result == WithEntry(old(result), r.hostName, r.taskName, Entry(r.fields[OutputField(o)], ByCve(DomainStatus(o))))
        && checkResult == old(checkResult)
        && db.Snapshot() == CveStepApplied(old(db.Snapshot()), taskId, r.taskName, hostIds[r.hostName], DomainStatus(o))
      ensures r.taskName !in cves ==>
        var recorded := WithEntry(old(result), r.hostName, r.taskName, RunnerEntry(r, o));
        && result == Popped(recorded, r.hostName, r.taskName)
        && checkResult == Filed(recorded, old(checkResult), r.hostName, r.taskName)
        && db.Snapshot() == old(db.Snapshot())
    {
      WithEntryTwice(result, r.hostName, r.taskName, RunnerEntry(r, o), Entry(r.fields[OutputField(o)], ByCve(DomainStatus(o))));
      result := WithEntry(result, r.hostName, r.taskName, RunnerEntry(r, o));
      SaveToDb(db, r.taskName, r.hostName, DomainStatus(o));
    }
  }

  // ---------------------------------------------------------------- repo setting

  /**
   * The store after the writes of one "set repo" step: the host's repo status,
   * then the host's repo name only when the repo was set.
   */
  function RepoStepApplied(t: Tables, task: TaskId, host: HostId, repoName: Option<string>, status: RepoStatus): Tables
    requires status == Set ==> repoName.Some?
  {
    var t1 := t.(repoUnits := if t.online then TaskStatusOps.RepoStatusSet(t.repoUnits, task, [host], status) else t.repoUnits,
                 writes := t.writes + [SetRepoStatusWrite(task, [host], status)]);
    if status == Set then
      t1.(hosts := if t.online then TaskStatusOps.RepoAssigned(t.hosts, repoName.value, [host]) else t.hosts,
          writes := t1.writes + [SetHostRepoWrite(repoName.value, [host])])
    else t1
  }

  /**
   * A "set repo" step writes the status of that one host, and records the repo on
   * the host exactly when the status is "set"; nothing else in the store changes.
   */
  lemma RepoStepWrites(t: Tables, task: TaskId, host: HostId, repoName: Option<string>, status: RepoStatus,
                       k: (TaskId, HostId), h: HostId)
    requires status == Set ==> repoName.Some?
    ensures RepoStepApplied(t, task, host, repoName, status).writes ==
      t.writes + [SetRepoStatusWrite(task, [host], status)] + (if status == Set then [SetHostRepoWrite(repoName.value, [host])] else [])
    ensures RepoStepApplied(t, task, host, repoName, status).units == t.units
    ensures RepoStepApplied(t, task, host, repoName, status).cveTasks == t.cveTasks
    ensures k in RepoStepApplied(t, task, host, repoName, status).repoUnits <==> k in t.repoUnits
    ensures k in t.repoUnits && k != (task, host) ==> RepoStepApplied(t, task, host, repoName, status).repoUnits[k] == t.repoUnits[k]
    ensures t.online && (task, host) in t.repoUnits ==> RepoStepApplied(t, task, host, repoName, status).repoUnits[(task, host)].status == status
    ensures h in RepoStepApplied(t, task, host, repoName, status).hosts <==> h in t.hosts
    ensures h in t.hosts && (h != host || status != Set || !t.online) ==> RepoStepApplied(t, task, host, repoName, status).hosts[h] == t.hosts[h]
    ensures h in t.hosts && h == host && status == Set && t.online ==>
      RepoStepApplied(t, task, host, repoName, status).hosts[h].repoName == repoName.value
  {
  }

  class RepoSetCallback {
    const taskId: TaskId
    const taskInfo: map<string, HostDict>
    var result: Results
    var checkResult: Checks

    constructor (taskId: TaskId, taskInfo: map<string, HostDict>)
      ensures this.taskId == taskId && this.taskInfo == taskInfo
      ensures result == map[] && checkResult == map[]
    {
      this.taskId := taskId;
      this.taskInfo := taskInfo;
      result := map[];
      checkResult := map[];
    }

    /**
     * save_to_db: the "set repo" step gets the repo status and issues its writes;
     * a step whose name starts with "check" is filed as a check item; any other
     * step stays in result with no write.
     */
    method SaveToDb(db: Database, taskName: string, hostName: string, status: RepoStatus)
      requires db.Valid()
      requires hostName in result && taskName in result[hostName]
      requires taskName == "set repo" ==> hostName in taskInfo
      requires taskName == "set repo" && status == Set ==> taskInfo[hostName].repoName.Some?
      modifies this, db
      ensures db.Valid()
      ensures taskName == "set repo" ==>
        && result == WithEntry(old(result), hostName, taskName, old(result)[hostName][taskName].(status := ByRepo(status)))
        && checkResult == old(checkResult)
        && db.Snapshot() == RepoStepApplied(old(db.Snapshot()), taskId, taskInfo[hostName].hostId, taskInfo[hostName].repoName, status)
      ensures taskName != "set repo" && Strs.StartsWith(taskName, "check") ==>
        && result == Popped(old(result), hostName, taskName)
        && checkResult == Filed(old(result), old(checkResult), hostName, taskName)
        && db.Snapshot() == old(db.Snapshot())
      ensures taskName != "set repo" && !Strs.StartsWith(taskName, "check") ==>
        result == old(result) && checkResult == old(checkResult) && db.Snapshot() == old(db.Snapshot())
    {
      if taskName == "set repo" {
        result := WithEntry(result, hostName, taskName, result[hostName][taskName].(status := ByRepo(status)));
        var hostId := taskInfo[hostName].hostId;
        var statusCode := TaskStatusOps.SetRepoStatus(db, taskId, [hostId], status);
        if status == Set {
          var repoCode := TaskStatusOps.SetHostRepo(db, taskInfo[hostName].repoName.value, [hostId]);
        }
      } else if Strs.StartsWith(taskName, "check") {
        checkResult := Filed(result, checkResult, hostName, taskName);
        result := Popped(result, hostName, taskName);
      }
    }

    /** v2_runner_on_unreachable / v2_runner_on_ok / v2_runner_on_failed. */
    method OnOutcome(db: Database, r: RunnerResult, o: Outcome)
      requires db.Valid()
      requires OutputField(o) in r.fields
      requires r.taskName == "set repo" ==> r.hostName in taskInfo
      requires r.taskName == "set repo" && o == Succeeded ==> taskInfo[r.hostName].repoName.Some?
      modifies this, db
      ensures db.Valid()
      ensures r.taskName == "set repo" ==>
        && result == WithEntry(old(result), r.hostName, r.taskName, Entry(r.fields[OutputField(o)], ByRepo(RepoStatusOf(o))))
        && checkResult == old(checkResult)
        && db.Snapshot() == RepoStepApplied(old(db.Snapshot()), taskId, taskInfo[r.hostName].hostId,
                                            taskInfo[r.hostName].repoName, RepoStatusOf(o))
      ensures r.taskName != "set repo" && Strs.StartsWith(r.taskName, "check") ==>
        var recorded := WithEntry(old(result), r.hostName, r.taskName, RunnerEntry(r, o));
        && result == Popped(recorded, r.hostName, r.taskName)
        && checkResult == Filed(recorded, old(checkResult), r.hostName, r.taskName)
        && db.Snapshot() == old(db.Snapshot())
      ensures r.taskName != "set repo" && !Strs.StartsWith(r.taskName, "check") ==>
        && result == WithEntry(old(result), r.hostName, r.taskName, RunnerEntry(r, o))
        && checkResult == old(checkResult)
        && db.Snapshot() == old(db.Snapshot())
    {
      WithEntryTwice(result, r.hostName, r.taskName, RunnerEntry(r, o), Entry(r.fields[OutputField(o)], ByRepo(RepoStatusOf(o))));
      result := WithEntry(result, r.hostName, r.taskName, RunnerEntry(r, o));
      SaveToDb(db, r.taskName, r.hostName, RepoStatusOf(o));
    }
  }

  // ---------------------------------------------------------------- cve scanning

  /** The scan constructor's host map (and make_host_info): keyed by host name, a later entry replacing an earlier one. */
  function HostsByName(hosts: seq<HostDict>): map<string, HostDict>
  {
    if hosts == [] then map[]
    else HostsByName(hosts[..|hosts| - 1])[hosts[|hosts| - 1].hostName := hosts[|hosts| - 1]]
  }

  /** Every listed name is a key, and its entry is the last one listed under that name. */
  lemma {:induction false} HostsByNameLastWins(hosts: seq<HostDict>, name: string)
    ensures name in HostsByName(hosts) <==> exists h :: h in hosts && h.hostName == name
    ensures name in HostsByName(hosts) ==>
      exists i :: 0 <= i < |hosts| && hosts[i] == HostsByName(hosts)[name] &&
        forall j :: i < j < |hosts| ==> hosts[j].hostName != name
  {
    if hosts != [] {
      var n := |hosts| - 1;
      var init := hosts[..n];
      HostsByNameLastWins(init, name);
      assert hosts == init + [hosts[n]];
      if name in HostsByName(hosts) && hosts[n].hostName != name {
        var i :| 0 <= i < |init| && init[i] == HostsByName(init)[name] &&
          forall j :: i < j < |init| ==> init[j].hostName != name;
        assert hosts[i] == init[i];
      }
    }
  }

  /** The store after update_scan_status for the listed hosts. */
  function ScanFinished(t: Tables, hostList: seq<HostId>): Tables
  {
    t.(hosts := if t.online then TaskStatusOps.ScanMarked(t.hosts, TaskStatusOps.ScanMatched(t.hosts, hostList, ""), TaskStatusOps.ScanFinish, 0)
                else t.hosts,
       writes := t.writes + [UpdateScanStatusWrite(hostList)])
  }

  /** One scan event marks its one host "done" (when it exists and the store is up) and nothing else. */
  lemma ScanFinishedOneHost(t: Tables, host: HostId, h: HostId)
    ensures ScanFinished(t, [host]).writes == t.writes + [UpdateScanStatusWrite([host])]
    ensures h in ScanFinished(t, [host]).hosts <==> h in t.hosts
    ensures h in t.hosts && (h != host || !t.online) ==> ScanFinished(t, [host]).hosts[h] == t.hosts[h]
    ensures h in t.hosts && h == host && t.online ==> ScanFinished(t, [host]).hosts[h] == t.hosts[h].(scanStatus := "done")
    ensures ScanFinished(t, [host]).units == t.units && ScanFinished(t, [host]).cveTasks == t.cveTasks
  {
  }

  class CveScanCallback {
    /** The user the scanned hosts belong to. */
    const user: UserName
    /** A scan is not a stored task: the callback carries no task id. */
    const taskId: Option<TaskId>
    const taskInfo: map<string, HostDict>
    var result: Results

    constructor (user: UserName, hostInfo: seq<HostDict>)
      ensures this.user == user && taskId == None
      ensures taskInfo == HostsByName(hostInfo)
      ensures result == map[]
    {
      var byName: map<string, HostDict> := map[];
      for i := 0 to |hostInfo|
        invariant byName == HostsByName(hostInfo[..i])
      {
        assert hostInfo[..i + 1][..i] == hostInfo[..i];
        byName := byName[hostInfo[i].hostName := hostInfo[i]];
      }
      assert hostInfo[..|hostInfo|] == hostInfo;
      this.user := user;
      taskId := None;
      taskInfo := byName;
      result := map[];
    }

    /**
     * v2_runner_on_unreachable / v2_runner_on_ok / v2_runner_on_failed: every
     * outcome records its output and runner status (no check-item routing) and
     * then marks the host's scan finished.
     */
    method OnOutcome(db: Database, r: RunnerResult, o: Outcome)
      requires db.Valid()
      requires OutputField(o) in r.fields
      requires r.hostName in taskInfo
      modifies this, db
      ensures db.Valid()
      ensures result == WithEntry(old(result), r.hostName, r.taskName, RunnerEntry(r, o))
      ensures db.Snapshot() == ScanFinished(old(db.Snapshot()), [taskInfo[r.hostName].hostId])
    {
      result := WithEntry(result, r.hostName, r.taskName, RunnerEntry(r, o));
      SaveToDb(db, r.hostName);
    }

    /** save_to_db: one update_scan_status for the host, whatever the outcome. */
    method SaveToDb(db: Database, hostName: string)
      requires db.Valid()
      requires hostName in taskInfo
      modifies db
      ensures db.Valid()
      ensures db.Snapshot() == ScanFinished(old(db.Snapshot()), [taskInfo[hostName].hostId])
    {
      var code := TaskStatusOps.UpdateScanStatus(db, [taskInfo[hostName].hostId]);
    }
  }
}
