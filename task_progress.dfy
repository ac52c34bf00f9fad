/**
 * The read side of the task proxy: how unit statuses aggregate into the status
 * of a host or a CVE, the per-task progress buckets, and whether a task may be
 * executed again.
 */
module TaskProgress {
  import opened Types
  import opened Wrappers
  import opened Store

  // ---------------------------------------------------------------- _get_cve_task_status

  /**
   * The status of a host (over its CVEs) or of a CVE (over its hosts):
   * running wins over unknown, unknown over an unfixed unit ("fail"), and a set
   * with none of the three (only fixed units, or none at all) is "succeed".
   */
  function CveTaskStatus(statuses: set<CveStatus>): (r: Summary)
    ensures r == SummaryRunning <==> Running in statuses
    ensures r == SummaryUnknown <==> Running !in statuses && Unknown in statuses
    ensures r == Fail <==> Running !in statuses && Unknown !in statuses && Unfixed in statuses
    ensures r == Succeed <==> statuses <= {Fixed}
  {
    if Running in statuses then SummaryRunning
    else if Unknown in statuses then SummaryUnknown
    else if Unfixed in statuses then Fail
    else assert forall x :: x in statuses ==> x == Fixed; Succeed
  }

  /** The precedence the aggregate follows. */
  function Rank(s: Summary): nat
  {
    match s
    case Succeed => 0
    case Fail => 1
    case SummaryUnknown => 2
    case SummaryRunning => 3
  }

  function Stronger(a: Summary, b: Summary): Summary
  {
    if Rank(a) >= Rank(b) then a else b
  }

  /**
   * The aggregate of a union is the stronger of the two aggregates, so it can be
   * computed over the units in any order and any grouping.
   */
  lemma AggregateOfUnion(a: set<CveStatus>, b: set<CveStatus>)
    ensures CveTaskStatus(a + b) == Stronger(CveTaskStatus(a), CveTaskStatus(b))
  {
  }

  /** The aggregate is the strongest single status of the set (and "succeed" for the empty set). */
  lemma AggregateIsStrongestMember(statuses: set<CveStatus>)
    ensures statuses == {} ==> CveTaskStatus(statuses) == Succeed
    ensures forall x :: x in statuses ==> Rank(CveTaskStatus({x})) <= Rank(CveTaskStatus(statuses))
    ensures statuses != {} ==> exists x :: x in statuses && CveTaskStatus({x}) == CveTaskStatus(statuses)
  {
    if statuses != {} {
      var r := CveTaskStatus(statuses);
      if r == SummaryRunning { assert CveTaskStatus({Running}) == r; }
      else if r == SummaryUnknown { assert CveTaskStatus({Unknown}) == r; }
      else if r == Fail { assert CveTaskStatus({Unfixed}) == r; }
      else {
        var x :| x in statuses;
        assert x == Fixed;
        assert CveTaskStatus({x}) == r;
      }
    }
  }

  // ---------------------------------------------------------------- progress buckets

  /** The four counters of a task's progress. */
  datatype Buckets = Buckets(succeed: nat, fail: nat, running: nat, unknown: nat)
  {
    function Get(s: Summary): nat
    {
      match s
      case Succeed => succeed
      case Fail => fail
      case SummaryRunning => running
      case SummaryUnknown => unknown
    }

    function Bump(s: Summary): (b: Buckets)
      ensures b.Get(s) == Get(s) + 1
      ensures forall o :: o != s ==> b.Get(o) == Get(o)
    {
      match s
      case Succeed => this.(succeed := succeed + 1)
      case Fail => this.(fail := fail + 1)
      case SummaryRunning => this.(running := running + 1)
      case SummaryUnknown => this.(unknown := unknown + 1)
    }

    function Total(): nat
    {
      succeed + fail + running + unknown
    }
  }

  const NoProgress := Buckets(0, 0, 0, 0)

  /** The progress of a task; a task with no rows reads as all zeros, as the source's defaultdict does. */
  function ProgressOf(progress: map<TaskId, Buckets>, task: TaskId): Buckets
  {
    if task in progress then progress[task] else NoProgress
  }

  // ---------------------------------------------------------------- CVE-task rows

  /** One row of the unit query: task, cve, host and the unit's status. */
  datatype UnitRow = UnitRow(task: TaskId, cve: CveId, host: HostId, status: CveStatus)

  predicate RowOf(units: map<(TaskId, CveId, HostId), CveStatus>, taskList: seq<TaskId>, row: UnitRow)
  {
    (row.task, row.cve, row.host) in units && units[(row.task, row.cve, row.host)] == row.status && row.task in taskList
  }

  /** _query_cve_task_host_status: the units of the listed tasks, each once, in the database's order. */
  method QueryUnitRows(db: Database, taskList: seq<TaskId>) returns (rows: seq<UnitRow>)
    ensures forall row :: row in rows <==> RowOf(db.units, taskList, row)
    ensures forall i, j :: 0 <= i < j < |rows| ==> rows[i] != rows[j]
  {
    var pending := set k | k in db.units && k.0 in taskList;
    rows := [];
    while pending != {}
      invariant forall k :: k in pending ==> k in db.units && k.0 in taskList
      invariant forall row :: row in rows <==> RowOf(db.units, taskList, row) && (row.task, row.cve, row.host) !in pending
      invariant forall i, j :: 0 <= i < j < |rows| ==> rows[i] != rows[j]
      invariant forall k :: k in db.units && k.0 in taskList && k !in pending ==> UnitRow(k.0, k.1, k.2, db.units[k]) in rows
      decreases |pending|
    {
      var k :| k in pending;
      var row := UnitRow(k.0, k.1, k.2, db.units[k]);
      assert row !in rows;
      ghost var before := rows;
      rows := rows + [row];
      pending := pending - {k};
      forall r ensures r in rows <==> RowOf(db.units, taskList, r) && (r.task, r.cve, r.host) !in pending {
        if RowOf(db.units, taskList, r) && (r.task, r.cve, r.host) == k {
          assert r == row;
        }
      }
    }
  }

  /** The statuses of each (task, host) pair, as the first loop of _get_cve_task_progress collects them. */
  function HostStatuses(rows: seq<UnitRow>): map<(TaskId, HostId), set<CveStatus>>
  {
    if rows == [] then map[]
    else
      var g := HostStatuses(rows[..|rows| - 1]);
      var row := rows[|rows| - 1];
      var key := (row.task, row.host);
      g[key := (if key in g then g[key] else {}) + {row.status}]
  }

  /** Every (task, host) with a row is a key, holding exactly the statuses of that host's rows. */
  lemma {:induction false} HostStatusesExact(rows: seq<UnitRow>, key: (TaskId, HostId))
    ensures key in HostStatuses(rows) <==> exists row :: row in rows && (row.task, row.host) == key
    ensures key in HostStatuses(rows) ==>
      HostStatuses(rows)[key] == set row | row in rows && (row.task, row.host) == key :: row.status
  {
    if rows != [] {
      var init := rows[..|rows| - 1];
      var last := rows[|rows| - 1];
      HostStatusesExact(init, key);
      assert rows == init + [last];
      assert forall row :: row in rows <==> row in init || row == last;
    }
  }

  /** The number of the task's hosts, among `done`, whose aggregate is `s`. */
  function Tally(g: map<(TaskId, HostId), set<CveStatus>>, done: set<(TaskId, HostId)>, task: TaskId, s: Summary): nat
  {
    |Bucket(g, done, task, s)|
  }

  /** The task's hosts, among `done`, whose aggregate is `s`. */
  function Bucket(g: map<(TaskId, HostId), set<CveStatus>>, done: set<(TaskId, HostId)>, task: TaskId, s: Summary): set<(TaskId, HostId)>
  {
    set k | k in done && k in g && k.0 == task && CveTaskStatus(g[k]) == s
  }

  function HostsOfTask(g: map<(TaskId, HostId), set<CveStatus>>, done: set<(TaskId, HostId)>, task: TaskId): set<(TaskId, HostId)>
  {
    set k | k in done && k in g && k.0 == task
  }

  lemma TallyStep(g: map<(TaskId, HostId), set<CveStatus>>, done: set<(TaskId, HostId)>, x: (TaskId, HostId), task: TaskId, s: Summary)
    requires x !in done && x in g
    ensures Tally(g, done + {x}, task, s) == Tally(g, done, task, s) + (if x.0 == task && CveTaskStatus(g[x]) == s then 1 else 0)
  {
    var before, after := Bucket(g, done, task, s), Bucket(g, done + {x}, task, s);
    if x.0 == task && CveTaskStatus(g[x]) == s {
      assert after == before + {x};
    } else {
      assert after == before;
    }
  }

  /**
   * The four buckets of a task partition its hosts: every host of the task is
   * counted once, in the bucket of its aggregate.
   */
  lemma {:induction false} TalliesPartitionHosts(g: map<(TaskId, HostId), set<CveStatus>>, done: set<(TaskId, HostId)>, task: TaskId)
    ensures Tally(g, done, task, Succeed) + Tally(g, done, task, Fail)
          + Tally(g, done, task, SummaryRunning) + Tally(g, done, task, SummaryUnknown)
         == |HostsOfTask(g, done, task)|
  {
    var a, b := Bucket(g, done, task, Succeed), Bucket(g, done, task, Fail);
    var c, d := Bucket(g, done, task, SummaryRunning), Bucket(g, done, task, SummaryUnknown);
    BucketsCover(g, done, task);
    BucketsDisjoint(g, done, task);
    DisjointCard(a, b);
    DisjointCard(a + b, c);
    DisjointCard(a + b + c, d);
  }

  lemma BucketsCover(g: map<(TaskId, HostId), set<CveStatus>>, done: set<(TaskId, HostId)>, task: TaskId)
    ensures HostsOfTask(g, done, task) == Bucket(g, done, task, Succeed) + Bucket(g, done, task, Fail)
      + Bucket(g, done, task, SummaryRunning) + Bucket(g, done, task, SummaryUnknown)
  {
    forall k | k in HostsOfTask(g, done, task)
      ensures k in Bucket(g, done, task, CveTaskStatus(g[k]))
    {
    }
  }

  lemma BucketsDisjoint(g: map<(TaskId, HostId), set<CveStatus>>, done: set<(TaskId, HostId)>, task: TaskId)
    ensures forall s, t, k :: s != t && k in Bucket(g, done, task, s) ==> k !in Bucket(g, done, task, t)
  {
  }

  lemma DisjointCard<T>(x: set<T>, y: set<T>)
    requires forall k :: k in x ==> k !in y
    ensures |x + y| == |x| + |y|
  {
    assert x * y == {};
  }

  /**
   * _get_cve_task_progress over the query rows: each (task, host) pair is counted
   * once, in the bucket of the aggregate of that host's statuses across the
   * task's CVEs. Only tasks with rows get an entry.
   */
  method GetCveTaskProgress(rows: seq<UnitRow>) returns (progress: map<TaskId, Buckets>)
    ensures var g := HostStatuses(rows);
      forall t :: t in progress <==> exists k :: k in g && k.0 == t
    ensures var g := HostStatuses(rows);
      forall t, s :: t in progress ==> progress[t].Get(s) == Tally(g, g.Keys, t, s)
  {
    var g: map<(TaskId, HostId), set<CveStatus>> := map[];
    var i := 0;
    while i < |rows|
      invariant 0 <= i <= |rows|
      invariant g == HostStatuses(rows[..i])
    {
      var key := (rows[i].task, rows[i].host);
      g := g[key := (if key in g then g[key] else {}) + {rows[i].status}];
      assert rows[..i + 1][..i] == rows[..i];
      i := i + 1;
    }
    assert rows[..i] == rows;

    progress := CountHosts(g);
  }

  /** The second loop of _get_cve_task_progress: one count per (task, host), in its aggregate's bucket. */
  method CountHosts(g: map<(TaskId, HostId), set<CveStatus>>) returns (progress: map<TaskId, Buckets>)
    ensures forall t :: t in progress <==> exists k :: k in g && k.0 == t
    ensures forall t, s :: t in progress ==> progress[t].Get(s) == Tally(g, g.Keys, t, s)
  {
    progress := map[];
    var pending := g.Keys;
    while pending != {}
      invariant pending <= g.Keys
      invariant forall t :: t in progress <==> exists k :: k in g.Keys - pending && k.0 == t
      invariant forall t, s :: t in progress ==> progress[t].Get(s) == Tally(g, g.Keys - pending, t, s)
      decreases |pending|
    {
      var k :| k in pending;
      var done := g.Keys - pending;
      BumpKeepsTallies(g, done, k, progress);
      progress := progress[k.0 := ProgressOf(progress, k.0).Bump(CveTaskStatus(g[k]))];
      pending := pending - {k};
      assert g.Keys - pending == done + {k};
    }
    assert g.Keys - pending == g.Keys;
  }

  lemma BumpKeepsTallies(g: map<(TaskId, HostId), set<CveStatus>>, done: set<(TaskId, HostId)>, k: (TaskId, HostId),
                         progress: map<TaskId, Buckets>)
    requires k in g && k !in done && done <= g.Keys
    requires forall t :: t in progress <==> exists x :: x in done && x.0 == t
    requires forall t, s :: t in progress ==> progress[t].Get(s) == Tally(g, done, t, s)
    ensures var bumped := progress[k.0 := ProgressOf(progress, k.0).Bump(CveTaskStatus(g[k]))];
      forall t, s :: t in bumped ==> bumped[t].Get(s) == Tally(g, done + {k}, t, s)
  {
    forall t, s ensures Tally(g, done + {k}, t, s) == Tally(g, done, t, s) + (if k.0 == t && CveTaskStatus(g[k]) == s then 1 else 0) {
      TallyStep(g, done, k, t, s);
    }
  }

  /** A host's aggregate is "running" exactly when one of its units is running. */
  lemma RunningBucketMeansRunningUnit(rows: seq<UnitRow>, task: TaskId)
    ensures var g := HostStatuses(rows);
      Tally(g, g.Keys, task, SummaryRunning) > 0 <==> exists row :: row in rows && row.task == task && row.status == Running
  {
    var g := HostStatuses(rows);
    var running := set k | k in g.Keys && k in g && k.0 == task && CveTaskStatus(g[k]) == SummaryRunning;
    if running != {} {
      var k :| k in running;
      HostStatusesExact(rows, k);
      var row :| row in rows && (row.task, row.host) == k && row.status == Running;
    }
    if exists row :: row in rows && row.task == task && row.status == Running {
      var row :| row in rows && row.task == task && row.status == Running;
      var k := (row.task, row.host);
      HostStatusesExact(rows, k);
      assert k in running;
    }
  }

  // ---------------------------------------------------------------- repo-task rows

  /** One row of the repo unit query. */
  datatype RepoUnitRow = RepoUnitRow(task: TaskId, host: HostId, status: RepoStatus)

  predicate RepoRowOf(units: map<(TaskId, HostId), RepoRow>, taskList: seq<TaskId>, row: RepoUnitRow)
  {
    (row.task, row.host) in units && units[(row.task, row.host)].status == row.status && row.task in taskList
  }

  /** _query_repo_task_host: the repo units of the listed tasks, each once. */
  method QueryRepoRows(db: Database, taskList: seq<TaskId>) returns (rows: seq<RepoUnitRow>)
    ensures forall row :: row in rows <==> RepoRowOf(db.repoUnits, taskList, row)
    ensures forall i, j :: 0 <= i < j < |rows| ==> rows[i] != rows[j]
  {
    var pending := set k | k in db.repoUnits && k.0 in taskList;
    rows := [];
    while pending != {}
      invariant forall k :: k in pending ==> k in db.repoUnits && k.0 in taskList
      invariant forall row :: row in rows <==> RepoRowOf(db.repoUnits, taskList, row) && (row.task, row.host) !in pending
      invariant forall i, j :: 0 <= i < j < |rows| ==> rows[i] != rows[j]
      invariant forall k :: k in db.repoUnits && k.0 in taskList && k !in pending ==> RepoUnitRow(k.0, k.1, db.repoUnits[k].status) in rows
      decreases |pending|
    {
      var k :| k in pending;
      var row := RepoUnitRow(k.0, k.1, db.repoUnits[k].status);
      assert row !in rows;
      rows := rows + [row];
      pending := pending - {k};
      forall r ensures r in rows <==> RepoRowOf(db.repoUnits, taskList, r) && (r.task, r.host) !in pending {
        if RepoRowOf(db.repoUnits, taskList, r) && (r.task, r.host) == k {
          assert r == row;
        }
      }
    }
  }

  /** The bucket a repo unit counts in: "set" is succeed, "unset" is fail. */
  function RepoBucket(s: RepoStatus): Summary
  {
    match s
    case Set => Succeed
    case Unset => Fail
    case RepoRunning => SummaryRunning
    case RepoUnknown => SummaryUnknown
  }

  /** The number of the task's rows that fall in bucket `s`. */
  function RepoTally(rows: seq<RepoUnitRow>, task: TaskId, s: Summary): nat
  {
    if rows == [] then 0
    else RepoTally(rows[..|rows| - 1], task, s)
         + (if rows[|rows| - 1].task == task && RepoBucket(rows[|rows| - 1].status) == s then 1 else 0)
  }

  function RowsOfTask(rows: seq<RepoUnitRow>, task: TaskId): nat
  {
    if rows == [] then 0
    else RowsOfTask(rows[..|rows| - 1], task) + (if rows[|rows| - 1].task == task then 1 else 0)
  }

  /** Every row of a repo task is counted in exactly one bucket. */
  lemma {:induction false} RepoTalliesPartitionRows(rows: seq<RepoUnitRow>, task: TaskId)
    ensures RepoTally(rows, task, Succeed) + RepoTally(rows, task, Fail)
          + RepoTally(rows, task, SummaryRunning) + RepoTally(rows, task, SummaryUnknown)
         == RowsOfTask(rows, task)
  {
    if rows != [] {
      RepoTalliesPartitionRows(rows[..|rows| - 1], task);
    }
  }

  lemma {:induction false} RepoTallyPositive(rows: seq<RepoUnitRow>, task: TaskId, s: Summary)
    ensures RepoTally(rows, task, s) > 0 <==> exists row :: row in rows && row.task == task && RepoBucket(row.status) == s
  {
    if rows != [] {
      var init := rows[..|rows| - 1];
      RepoTallyPositive(init, task, s);
      assert rows == init + [rows[|rows| - 1]];
      assert forall row :: row in rows <==> row in init || row == rows[|rows| - 1];
    }
  }

  /** _get_repo_task_progress over the query rows: one count per row, in its status's bucket. */
  method GetRepoTaskProgress(rows: seq<RepoUnitRow>) returns (progress: map<TaskId, Buckets>)
    ensures forall t :: t in progress <==> exists row :: row in rows && row.task == t
    ensures forall t, s :: t in progress ==> progress[t].Get(s) == RepoTally(rows, t, s)
  {
    progress := map[];
    var i := 0;
    while i < |rows|
      invariant 0 <= i <= |rows|
      invariant forall t :: t in progress <==> exists row :: row in rows[..i] && row.task == t
      invariant forall t, s :: t in progress ==> progress[t].Get(s) == RepoTally(rows[..i], t, s)
    {
      var row := rows[i];
      assert rows[..i + 1] == rows[..i] + [row];
      assert rows[..i + 1][..i] == rows[..i];
      if row.task !in progress {
        forall s ensures RepoTally(rows[..i], row.task, s) == 0 {
          RepoTallyPositive(rows[..i], row.task, s);
        }
      }
      progress := progress[row.task := ProgressOf(progress, row.task).Bump(RepoBucket(row.status))];
      i := i + 1;
    }
    assert rows[..i] == rows;
  }

  // ---------------------------------------------------------------- check_task_status

  /**
   * check_task_status: a task may run again unless one of its hosts is still
   * running. An unknown task type is never blocked.
   */
  method CheckTaskStatus(db: Database, task: TaskId, taskType: TaskType) returns (open: bool)
    ensures taskType.OtherType? ==> open
    ensures taskType == CveType ==>
      (open <==> forall k :: k in db.units && k.0 == task ==> db.units[k] != Running)
    ensures taskType == RepoType ==>
      (open <==> forall k :: k in db.repoUnits && k.0 == task ==> db.repoUnits[k].status != RepoRunning)
  {
    if taskType == CveType {
      var rows := QueryUnitRows(db, [task]);
      var progress := GetCveTaskProgress(rows);
      RunningBucketMeansRunningUnit(rows, task);
      var g := HostStatuses(rows);
      if task !in progress {
        forall k | k in db.units && k.0 == task ensures db.units[k] != Running {
          var row := UnitRow(k.0, k.1, k.2, db.units[k]);
          assert RowOf(db.units, [task], row);
          HostStatusesExact(rows, (k.0, k.2));
        }
      }
      open := ProgressOf(progress, task).running == 0;
      if !open {
        var row :| row in rows && row.task == task && row.status == Running;
        assert RowOf(db.units, [task], row);
      }
      if open && task in progress {
        forall k | k in db.units && k.0 == task ensures db.units[k] != Running {
          var row := UnitRow(k.0, k.1, k.2, db.units[k]);
          assert RowOf(db.units, [task], row);
        }
      }
    } else if taskType == RepoType {
      var rows := QueryRepoRows(db, [task]);
      var progress := GetRepoTaskProgress(rows);
      RepoTallyPositive(rows, task, SummaryRunning);
      open := ProgressOf(progress, task).running == 0;
      if !open {
        var row :| row in rows && row.task == task && RepoBucket(row.status) == SummaryRunning;
        assert RepoRowOf(db.repoUnits, [task], row);
      } else {
        forall k | k in db.repoUnits && k.0 == task ensures db.repoUnits[k].status != RepoRunning {
          var row := RepoUnitRow(k.0, k.1, db.repoUnits[k].status);
          assert RepoRowOf(db.repoUnits, [task], row);
        }
      }
    } else {
      open := true;
    }
  }
}
