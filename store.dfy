/**
 * The store the proxies read and write: the relational tables of the vulnerability
 * service and the search-index documents that hold each task's playbook, inventory
 * and run log. Every table becomes a map keyed by its primary key (or a row
 * sequence where the table has a surrogate key and repeats are possible).
 */
module Store {
  import opened Types
  import opened Wrappers
  import XmlTree

  /** One row of the CVE-task table: reboot flag, finished-host counter and host count. */
  datatype CveTaskRow = CveTaskRow(reboot: bool, progress: nat, hostNum: nat)

  /** One row of the task-host-repo table. */
  datatype RepoRow = RepoRow(repoName: string, status: RepoStatus)

  /** The columns of the host table the task subsystem touches. */
  datatype HostRow = HostRow(user: UserName, scanStatus: string, lastScan: int, repoName: string)

  /** One row of the task table. */
  datatype TaskRow = TaskRow(
    user: UserName,
    taskType: TaskType,
    taskName: string,
    description: string,
    autoReboot: bool,
    createTime: int,
    latestExecuteTime: Option<int>,
    hostNum: nat,
    needReboot: nat)

  /**
   * The status a callback records for one step: first the runner's own status,
   * then, for a step that names a unit of the task, the domain status written over it.
   */
  datatype Recorded = ByRunner(runner: RunnerStatus) | ByCve(cve: CveStatus) | ByRepo(repo: RepoStatus)

  /** One entry of a host's "check_items" list in the run log. */
  datatype CheckItem = CheckItem(item: string, result: bool)

  /** One entry of a host's "cves" list in the run log. */
  datatype CveResult = CveResult(cveId: CveId, log: string, result: Recorded)

  /** One host's entry of the run log's "task_result" list. */
  datatype HostResult = HostResult(
    hostId: HostId,
    hostName: string,
    hostIp: string,
    status: Summary,
    checkItems: seq<CheckItem>,
    cves: seq<CveResult>)

  /** The run log a manager saves after a run (kept as a value instead of its JSON text). */
  datatype TaskLog = TaskLog(taskId: TaskId, taskType: TaskType, latestExecuteTime: int, taskResult: seq<HostResult>)

  /** A task's search-index document; an empty "log" field is None. */
  datatype TaskDoc = TaskDoc(user: UserName, playbook: string, inventory: string, log: Option<TaskLog>)

  /** The write requests the task handlers send to the task proxy, in the order they are sent. */
  datatype Write =
    | InitCveTaskWrite(task: TaskId, cveList: seq<CveId>)
    | SetCveProgressWrite(task: TaskId, cveList: seq<CveId>, how: ProgressMethod)
    | UpdateCveStatusWrite(task: TaskId, cve: CveId, host: HostId, status: CveStatus)
    | FixTaskStatusWrite(task: TaskId, taskType: TaskType)
    | SetRepoStatusWrite(task: TaskId, hostList: seq<HostId>, repoStatus: RepoStatus)
    | SetHostRepoWrite(repoName: string, hostList: seq<HostId>)
    | UpdateScanStatusWrite(hostList: seq<HostId>)
    | UpdateExecuteTimeWrite(task: TaskId, time: int)
    | SaveTaskInfoWrite(task: TaskId, playbook: Option<string>, inventory: Option<string>, log: Option<TaskLog>)

  /** One arch entry of a CVE package document: the arch name and its package file names. */
  datatype ArchInfo = ArchInfo(arch: string, packages: seq<string>)

  /**
   * One os entry of a CVE package document. The update time is the advisory's
   * revision date as the parser read it, whatever its shape.
   */
  datatype OsInfo = OsInfo(osVersion: string, updateTime: XmlTree.Value, archList: seq<ArchInfo>)

  /** A document of the CVE package index, whose document id is the CVE id; the description is stored as parsed. */
  datatype PkgDoc = PkgDoc(cveId: CveId, description: XmlTree.Value, osList: seq<OsInfo>)

  /** The whole content of the store at one moment. */
  datatype Tables = Tables(
    online: bool,
    units: map<(TaskId, CveId, HostId), CveStatus>,
    cveTasks: map<(TaskId, CveId), CveTaskRow>,
    repoUnits: map<(TaskId, HostId), RepoRow>,
    hosts: map<HostId, HostRow>,
    tasks: map<TaskId, TaskRow>,
    docs: map<TaskId, TaskDoc>,
    cves: set<CveId>,
    cveHostRows: seq<(HostId, CveId)>,
    userCves: map<(UserName, CveId), string>,
    cvePkgs: set<(CveId, string)>,
    pkgDocs: map<CveId, PkgDoc>,
    writes: seq<Write>)

  class Database {
    /** False when the database cannot complete a transaction: every write then fails. */
    var online: bool
    /** TaskCveHostAssociation: (task, cve, host) to unit status. */
    var units: map<(TaskId, CveId, HostId), CveStatus>
    /** CveTaskAssociation: (task, cve) to reboot, progress and host count. */
    var cveTasks: map<(TaskId, CveId), CveTaskRow>
    /** TaskHostRepoAssociation: (task, host) to repo name and status. */
    var repoUnits: map<(TaskId, HostId), RepoRow>
    var hosts: map<HostId, HostRow>
    var tasks: map<TaskId, TaskRow>
    /** The task index of the search engine, keyed by task id. */
    var docs: map<TaskId, TaskDoc>
    /** The ids of the CVE table. */
    var cves: set<CveId>
    /** CveHostAssociation: a surrogate-keyed table, so a sequence of (host, cve) rows. */
    var cveHostRows: seq<(HostId, CveId)>
    /** CveUserAssociation: (user, cve) to review status. */
    var userCves: map<(UserName, CveId), string>
    /** The (cve, package) keys of the affected-package table. */
    var cvePkgs: set<(CveId, string)>
    /** The CVE package index of the search engine, keyed by CVE id. */
    var pkgDocs: map<CveId, PkgDoc>
    /** The write requests received from the task handlers. */
    var writes: seq<Write>

    /** A CVE's progress never exceeds its host count. */
    predicate Valid()
      reads this
    {
      forall key :: key in cveTasks ==> cveTasks[key].progress <= cveTasks[key].hostNum
    }

    function Snapshot(): Tables
      reads this
    {
      Tables(online, units, cveTasks, repoUnits, hosts, tasks, docs, cves, cveHostRows, userCves, cvePkgs, pkgDocs, writes)
    }

    constructor ()
      ensures Valid() && online
      ensures units == map[] && cveTasks == map[] && repoUnits == map[]
      ensures hosts == map[] && tasks == map[] && docs == map[]
      ensures cves == {} && cveHostRows == [] && userCves == map[] && cvePkgs == {}
      ensures pkgDocs == map[]
      ensures writes == []
    {
      online := true;
      units := map[];
      cveTasks := map[];
      repoUnits := map[];
      hosts := map[];
      tasks := map[];
      docs := map[];
      cves := {};
      cveHostRows := [];
      userCves := map[];
      cvePkgs := {};
      pkgDocs := map[];
      writes := [];
    }
  }
}
