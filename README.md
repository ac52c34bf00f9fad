# aops-apollo vulnerability service and hotpatch plugin, modelled in Dafny

This project models the core of aops-apollo, the vulnerability-management service of
openEuler's A-Ops suite, together with the dnf hotpatch plugin shipped beside it:

- **Task proxy** (`TaskStatusOps`, `TaskProgress`, `TaskView`, `TaskGen`): the state changes of
  CVE-fix, rollback, repo-set and scan tasks, the progress and status aggregates, the CVE
  list and rollback list of a task, the run logs, task creation and deletion. The relational
  tables and the search-index documents are one `Store.Database` object with a map per table;
  a transaction the database cannot complete returns its error code and changes nothing.
- **CVE proxy** (`CveProxy`, `PkgDocMerge`): the severity overview, the all-or-nothing review
  status update, the fix-action summary, saving a security advisory (new and known CVEs,
  package rows, package documents and their merge) and the related-CVE lookup.
- **Advisory parser** (`XmlTree`, `Advisory`): `etree_to_dict` over an element tree, and the
  reading of a CVRF document into CVE rows, package rows and package documents, with Python's
  KeyError, TypeError and AttributeError as error values.
- **Task handlers** (`Callbacks`, `Managers`, `Cache`, `Playbooks`): the runner callbacks of
  scan, fix, rollback and repo-set tasks, the managers that open a run, build its log and close
  it, the task cache and the playbook and inventory builders.
- **Timed correction** (`Sweeper`): marking as failed the tasks that have run too long.
- **Hotpatch plugin** (`HotpatchSelect`, `Hotpatches`, `HotDisplay`): the hotpatch update
  information read from the repositories, the hotpatch states against the installed packages
  and the syscare status, the hotpatch-per-CVE and hotpatch-per-advisory queries, and the
  `dnf hot-updateinfo list cves` table.

Shared modules: `Wrappers` (Option and Result), `Types` (status vocabularies and codes),
`Dicts` (Python dicts as insertion-ordered association lists), `Seqs` (filter loops), `Strs`
(join and split), `Store` (the tables).

Operations that change state in the source are methods: store operations have
`modifies db` and state the new tables as a function of the old ones, and loops are
`while`/`for` loops with invariants, each proved equal to a specification function whose
properties are lemmas.

## Model

| member | source | states |
|---|---|---|
| TaskStatusOps.InitCveTask | apollo/database/proxy/task.py:1413-1457 | init_cve_task: on success the selected units become "running" and the selected CVE rows' progress 0, nothing else changes; an offline database gives DATABASE_UPDATE_ERROR and no change |
| TaskStatusOps.Advanced | apollo/database/proxy/task.py:1399-1408 | one progress step: "add" is min(progress + 1, host_num), "fill" is host_num, "zero" is 0; host_num and reboot are kept |
| TaskStatusOps.AdvancedAsWritten | apollo/database/proxy/task.py:1399-1401 | as written, the "add" step raises TypeError and the others are the intended steps |
| TaskStatusOps.SetCveProgress | apollo/database/proxy/task.py:1361-1411 | set_cve_progress: an unknown method is SERVER_ERROR with no change; otherwise the selected CVE rows take one step each and nothing else changes |
| TaskStatusOps.UpdateCveStatus | apollo/database/proxy/task.py:1316-1359 | update_cve_status: a missing (task, cve, host) unit is NO_DATA; an existing one takes the status; an offline database changes nothing |
| TaskStatusOps.FixTaskStatus | apollo/database/proxy/task.py:1459-1502 | fix_task_status: the task's "running" units (CVE or repo, by task type) become "unknown"; an unknown task type is SERVER_ERROR with no change |
| TaskStatusOps.SetRepoStatus | apollo/database/proxy/task.py:1681-1715 | set_repo_status: the selected repo units of the task (all when the host list is empty) take the status, keeping their repo name |
| TaskStatusOps.SetHostRepo | apollo/database/proxy/task.py:1651-1679 | set_host_repo: each listed host records the repo name; other hosts and tables are unchanged |
| TaskStatusOps.UpdateTaskExecuteTime | apollo/database/proxy/task.py:1756-1795 | update_task_execute_time: an unknown task is NO_DATA; otherwise only the task's latest execute time changes |
| TaskStatusOps.UpdateHostScan | apollo/database/proxy/task.py:170-218 | _update_host_scan: "init" with a listed host the query misses is NO_DATA with no change, otherwise marks the matched hosts "scanning" with the time; "finish" marks the matched hosts "done" even when some are missing; other types are SERVER_ERROR |
| TaskStatusOps.UpdateScanStatus | apollo/database/proxy/task.py:149-168 | update_scan_status: the "finish" update over the listed hosts for any user |
| TaskStatusOps.HostRowsExact | apollo/database/proxy/task.py:263-273 | a host's new association rows are exactly its listed CVEs that are in the CVE table |
| TaskStatusOps.ScanRowsExact | apollo/database/proxy/task.py:263-273 | a scan records (host, cve) exactly when the host's list names the CVE and the CVE is already known |
| TaskStatusOps.RowsOfOtherHosts | apollo/database/proxy/task.py:257-259 | the rows kept by the delete are exactly the old rows of hosts that were not scanned |
| TaskStatusOps.WithUserCves | apollo/database/proxy/task.py:285-305 | _update_user_cve_status: existing user rows are kept; every found CVE has a row for the user; every new row is a found CVE marked "not reviewed" |
| TaskStatusOps.CollectScanRows | apollo/database/proxy/task.py:269-277 | the nested loops collect exactly the rows of ScanRows, and the set of CVEs those rows name |
| TaskStatusOps.SaveScanResult | apollo/database/proxy/task.py:220-283 | save_scan_result: the scanned hosts' associations are replaced by the known CVEs of the scan and the user's new CVEs are added; a row for a host not in the host table rolls everything back with DATABASE_INSERT_ERROR |
| TaskStatusOps.SettledLeavesNothingRunning | apollo/database/proxy/task.py:1489-1492 | after fix_task_status no unit of the task is running, every other unit keeps its status, and a second call changes nothing |
| TaskStatusOps.SettledRepoLeavesNothingRunning | apollo/database/proxy/task.py:1494-1497 | the same for repo units, which also keep their repo name |
| TaskStatusOps.RestartThenSettle | apollo/database/proxy/task.py:1437-1502 | a run started by init_cve_task and closed by fix_task_status before any callback leaves the selected units "unknown" and the others as they were |
| TaskStatusOps.RestartedSelects | apollo/database/proxy/task.py:1437-1457 | init_cve_task touches only the selected units and CVE rows, keeps host_num, sets progress 0, and is idempotent |
| TaskStatusOps.AddSteps | apollo/database/proxy/task.py:1399-1408 | "add" after "fill" stays at host_num; n "add" steps from "zero" reach min(n, host_num) |
| TaskStatusOps.AddRaisesAsWritten | apollo/database/proxy/task.py:1399-1401 | a row short of host_num: as written "add" raises, as intended it counts one more host |
| TaskStatusOps.RepoStatusLastWins | apollo/database/proxy/task.py:1706-1715 | setting the repo status twice keeps the last status; the key set and repo names never change |
| TaskStatusOps.ScanInitThenFinish | apollo/database/proxy/task.py:180-197 | a scan that starts and then finishes on the matched hosts leaves them "done" with the start time as last scan; other hosts are untouched |
| TaskProgress.CveTaskStatus | apollo/database/proxy/task.py:594-609 | the aggregate is "running" iff a unit is running, else "unknown" iff one is unknown, else "fail" iff one is unfixed, else "succeed" (also for the empty set) |
| TaskProgress.AggregateOfUnion | apollo/database/proxy/task.py:594-609 | the aggregate of a union is the stronger of the two aggregates, so it does not depend on the order or grouping of the units |
| TaskProgress.AggregateIsStrongestMember | apollo/database/proxy/task.py:594-609 | the aggregate is the strongest single status of the set, and "succeed" for the empty set |
| TaskProgress.Buckets.Bump | apollo/database/proxy/task.py:570 | counting a host adds one to its bucket and leaves the other three |
| TaskProgress.QueryUnitRows | apollo/database/proxy/task.py:578-591 | _query_cve_task_host_status: exactly the units of the listed tasks, each once |
| TaskProgress.HostStatusesExact | apollo/database/proxy/task.py:564-565 | each (task, host) with a row is a key holding exactly the statuses of that host's rows |
| TaskProgress.TallyStep | apollo/database/proxy/task.py:567-570 | counting one more host adds one to the bucket of its aggregate only |
| TaskProgress.TalliesPartitionHosts | apollo/database/proxy/task.py:567-570 | the four buckets of a task sum to the number of its distinct hosts |
| TaskProgress.GetCveTaskProgress | apollo/database/proxy/task.py:543-576 | _get_cve_task_progress: tasks with rows get an entry whose buckets count each distinct host once, in the bucket of the aggregate of its statuses across the task's CVEs, and sum to the host count |
| TaskProgress.CountHosts | apollo/database/proxy/task.py:567-570 | the second loop: an entry per task with hosts, each bucket the tally of that aggregate |
| TaskProgress.BumpKeepsTallies | apollo/database/proxy/task.py:567-570 | one counting step keeps every bucket equal to the tally of the hosts seen so far |
| TaskProgress.RunningBucketMeansRunningUnit | apollo/database/proxy/task.py:603-604 | a task's running bucket is non-zero iff one of its units is running |
| TaskProgress.QueryRepoRows | apollo/database/proxy/task.py:645-657 | _query_repo_task_host: exactly the repo units of the listed tasks, each once |
| TaskProgress.RepoTalliesPartitionRows | apollo/database/proxy/task.py:627-635 | every repo row of a task is counted in exactly one bucket |
| TaskProgress.RepoTallyPositive | apollo/database/proxy/task.py:627-635 | a bucket is non-zero iff some row of the task maps to it ("set" succeed, "unset" fail) |
| TaskProgress.GetRepoTaskProgress | apollo/database/proxy/task.py:611-643 | _get_repo_task_progress: tasks with rows get an entry, each bucket counting the rows of that status |
| TaskProgress.CheckTaskStatus | apollo/database/proxy/task.py:1797-1818 | check_task_status: true for an unknown type; otherwise false iff a unit (CVE or repo, by type) of the task is running |
| TaskView.QueryCveStatusRows | apollo/database/proxy/task.py:1049-1079 | _query_cve_task_cve_status: exactly the units of the user's task, narrowed to the listed CVEs when the list is non-empty, each once |
| TaskView.CveIds | apollo/database/proxy/task.py:1225-1226 | the CVE column of the rows, position by position |
| TaskView.StatusesOfExact | apollo/database/proxy/task.py:1224-1226 | a status is in a CVE's set iff some row of that CVE carries it |
| TaskView.Revertible | apollo/database/proxy/task.py:1229-1232 | a CVE may be rolled back iff its aggregate is "succeed" or "fail", i.e. none of its units is running or unknown |
| TaskView.GroupStatusesByCve | apollo/database/proxy/task.py:1224-1226 | the defaultdict(set) loop: keys in first-appearance order, each holding exactly its CVE's statuses |
| TaskView.RollbackCveList | apollo/database/proxy/task.py:1224-1234 | the rollback list is duplicate-free and holds exactly the CVEs with rows whose aggregate is "succeed" or "fail" |
| TaskView.GetRollbackCveList | apollo/database/proxy/task.py:1216-1234 | _get_rollback_cve_list: a CVE is listed iff the user's task has units of it and none is running or unknown |
| TaskView.QueryCveIds | apollo/database/proxy/task.py:904-905 | the CVE column of the query rows |
| TaskView.GroupsExact | apollo/database/proxy/task.py:904-912 | a CVE's group exists iff it has rows, and holds exactly the packages, hosts and statuses of its rows, with the first row's reboot flag |
| TaskView.SelectInfosExact | apollo/database/proxy/task.py:914-931 | an entry is selected iff its CVE is in the order, has a group, and its aggregate passes the status filter |
| TaskView.SelectInfosDistinct | apollo/database/proxy/task.py:917-931 | distinct CVE order gives entries with distinct CVE ids |
| TaskView.CveInfosExact | apollo/database/proxy/task.py:876-932 | a CVE is listed iff it has rows and its aggregate passes the filter; its entry counts its distinct hosts and aggregates all its statuses; no CVE is listed twice |
| TaskView.NothingWanted | apollo/database/proxy/task.py:915-916 | an empty status list gives an empty result |
| TaskView.GroupCveRows | apollo/database/proxy/task.py:904-912 | the grouping loop builds the groups in first-appearance order |
| TaskView.ProcessCveTaskData | apollo/database/proxy/task.py:876-932 | _process_cve_task_data computes the specified CVE summaries |
| TaskView.InsertPerm | apollo/database/proxy/task.py:968 | inserting keeps the multiset of entries plus the new one |
| TaskView.InsertSorted | apollo/database/proxy/task.py:968 | inserting into a list sorted by host count keeps it sorted |
| TaskView.SortByHostNum | apollo/database/proxy/task.py:968 | the sort is a permutation ordered by host count (descending when reversed) |
| TaskView.WithHostNumAppend | apollo/database/proxy/task.py:968 | the entries of one host count distribute over concatenation |
| TaskView.WithHostNumNone | apollo/database/proxy/task.py:968 | a list without that host count has no such entries |
| TaskView.InsertStable | apollo/database/proxy/task.py:968 | inserting appends the new entry after the equal-key entries already there |
| TaskView.SortStable | apollo/database/proxy/task.py:968 | the sort is stable: for every host count the entries keep their relative order, also when reversed |
| TaskView.TotalPageBounds | apollo/database/proxy/task.py:971 | math.ceil(total/per_page) pages hold every entry and one page fewer would not; zero entries give zero pages |
| TaskView.PageContents | apollo/database/proxy/task.py:972 | a page holds at most per_page entries, those from position per_page*(page-1) on, and is non-empty iff page <= total_page |
| TaskView.SortAndPageTaskCve | apollo/database/proxy/task.py:935-974 | _sort_and_page_task_cve: sorted by host count (descending only for sort "host_num" with direction "desc"); with page and per_page, that page and ceil(total/per_page) pages, else the whole list and one page |
| TaskView.GetProcessedCveTask | apollo/database/proxy/task.py:789-821 | _get_processed_cve_task: total_count is the number of selected CVEs; zero gives one empty page; otherwise the sorted page and its page count |
| TaskView.HostsOfCveExact | apollo/database/proxy/task.py:1037-1039 | a CVE's host list holds exactly the (host, status) of that CVE's rows |
| TaskView.GroupHostsByCve | apollo/database/proxy/task.py:1037-1039 | the defaultdict(list) loop: a key per CVE with rows, holding its hosts in row order |
| TaskView.GetTaskCveStatus | apollo/database/proxy/task.py:1015-1047 | no visible unit is NO_DATA with an empty result; a listed CVE without units is PARTIAL_SUCCEED; each CVE maps to exactly its visible units' hosts and statuses |
| TaskView.GetTaskCveStatusAsWritten | apollo/database/proxy/task.py:1029-1032 | as written, no visible unit raises TypeError instead of answering NO_DATA; every other answer is the intended one |
| TaskView.CveResultsInExact | apollo/database/proxy/task.py:2042-2044 | a CVE result is kept iff it is in the host's list and names a listed CVE |
| TaskView.CveResultsInIdempotent | apollo/database/proxy/task.py:2042-2044 | narrowing twice equals narrowing once |
| TaskView.KeptHostsExact | apollo/database/proxy/task.py:2039-2047 | a kept host is an input host narrowed to the listed CVEs with at least one left; every input host with a listed CVE is kept |
| TaskView.KeptHostsIdempotent | apollo/database/proxy/task.py:2039-2047 | narrowing a narrowed log changes nothing |
| TaskView.FilterCveResults | apollo/database/proxy/task.py:2042-2044 | the inner loop computes the narrowed CVE list |
| TaskView.ProcessCveTaskResult | apollo/database/proxy/task.py:2035-2049 | _process_cve_task_result replaces task_result by the narrowed hosts and keeps the other fields |
| TaskView.HostsInExact | apollo/database/proxy/task.py:2124-2126 | a host result is kept iff its host is listed |
| TaskView.HostsInIdempotent | apollo/database/proxy/task.py:2124-2126 | filtering twice equals filtering once |
| TaskView.ProcessRepoTaskResult | apollo/database/proxy/task.py:2121-2127 | _process_repo_task_result keeps the listed hosts' results and the other fields |
| TaskView.GetTaskLog | apollo/database/proxy/task.py:1927-1959 | get_task_ansible_info for the log: an unreachable index is DATABASE_QUERY_ERROR; a document that is missing or of another user is NO_DATA; otherwise its log |
| TaskView.GetCveTaskResult | apollo/database/proxy/task.py:2014-2032 | _get_cve_task_result: success iff the user's document exists; the log is narrowed to the listed CVEs only when a list is given and the log is non-empty |
| TaskView.GetRepoTaskResult | apollo/database/proxy/task.py:2100-2118 | _get_repo_task_result: success iff the user's document exists; the log is narrowed to the listed hosts only when a list is given and the log is non-empty |
| TaskGen.Adjusted | apollo/database/proxy/task.py:2243-2261 | the returned CVE list: each entry with reboot and-ed with auto_reboot, all else kept |
| TaskGen.CveRows | apollo/database/proxy/task.py:2242-2244 | one CVE row per CVE: reboot && auto_reboot, progress 0, host_num the length of its host list |
| TaskGen.HostIdsExact | apollo/database/proxy/task.py:2246-2247 | a CVE's host set holds exactly the ids of its host list |
| TaskGen.AllHostsExact | apollo/database/proxy/task.py:2246-2255 | host_num counts exactly the hosts some CVE of the request names, each once |
| TaskGen.RebootHostsExact | apollo/database/proxy/task.py:2251-2256 | need_reboot counts exactly the hosts of CVEs that need a reboot, and none without auto_reboot |
| TaskGen.NeedRebootBounded | apollo/database/proxy/task.py:2250-2256 | the reboot hosts are a subset of all hosts, so need_reboot <= host_num, and none without auto_reboot |
| TaskGen.HostPairsExact | apollo/database/proxy/task.py:2246-2248 | one CVE's unit keys are exactly (cve, host) for its listed hosts |
| TaskGen.UnitPairsExact | apollo/database/proxy/task.py:2239-2248 | a unit row exists for exactly the (cve, host) pairs the request lists |
| TaskGen.CollectCveHosts | apollo/database/proxy/task.py:2246-2248 | the inner loop computes the CVE's host set and unit keys |
| TaskGen.CollectCveTaskRows | apollo/database/proxy/task.py:2239-2252 | the loop of _gen_cve_task computes the adjusted list, both host sets, the CVE rows and the unit keys |
| TaskGen.CveRowMapExact | apollo/database/proxy/task.py:2280 | with distinct CVE ids every CVE row is stored under (task, cve) and nothing else is |
| TaskGen.GenerateCveTask | apollo/database/proxy/task.py:2154-2286 | generate_cve_task: when the rows clash with nothing and the index insert succeeds, SUCCEED, the adjusted list, and the tables with the task row, CVE rows, "unfixed" units and an empty document added; when only the index insert fails, DATABASE_INSERT_ERROR with the committed task row left behind and nothing else; on a clash, DATABASE_INSERT_ERROR, an empty list and no change |
| TaskGen.InsertCveTask | apollo/database/proxy/task.py:2263-2330 | the insert transaction yields exactly the specified tables |
| TaskGen.NewCveTaskRows | apollo/database/proxy/task.py:2239-2248 | every CVE row starts with progress 0 and host_num the length of its host list; every listed (cve, host) has a unit, and only those |
| TaskGen.CveTaskInsertedRows | apollo/database/proxy/task.py:2239-2261 | after a successful insert each listed CVE has its row, with progress 0, and need_reboot <= host_num |
| TaskGen.CveTaskInsertedUnits | apollo/database/proxy/task.py:2280-2308 | after a successful insert the units are the old ones plus one "unfixed" unit per listed (cve, host), none overwritten |
| TaskGen.RepoHostIds | apollo/database/proxy/task.py:2387-2388 | the host ids of the repo rows, position by position |
| TaskGen.GenerateRepoTask | apollo/database/proxy/task.py:2332-2433 | generate_repo_task: a task row with host_num the host count and need_reboot 0, one "unset" row per host with the repo name and an empty document; a failed index insert is DATABASE_INSERT_ERROR with the committed task row left behind; a clash is DATABASE_INSERT_ERROR with no change |
| TaskGen.RepoHostNumIsDistinctHosts | apollo/database/proxy/task.py:2391 | when the insert succeeds (distinct host ids) host_num is the number of distinct hosts |
| TaskGen.DocMerged | apollo/database/proxy/task.py:1894-1901 | a partial document update keeps the user and every field that is not given, and overwrites those that are |
| TaskGen.DocMergedIdempotent | apollo/database/proxy/task.py:1894-1901 | an update naming no field changes nothing, and repeating an update changes nothing more |
| TaskGen.DocMergedCommutes | apollo/database/proxy/task.py:1894-1901 | updates of different fields commute |
| TaskGen.SaveTaskInfo | apollo/database/proxy/task.py:1851-1904 | save_task_info: the task's document must exist; its given fields are overwritten, others kept; any failure is DATABASE_INSERT_ERROR with no change |
| TaskGen.QueryUserTasks | apollo/database/proxy/task.py:2484-2487 | the listed tasks that belong to the user, each once |
| TaskGen.DeleteTask | apollo/database/proxy/task.py:2435-2517 | delete_task: deletes exactly the user's listed tasks with their rows and documents; other ids are skipped; a failure is DATABASE_DELETE_ERROR with no change |
| TaskGen.PurgedExact | apollo/database/proxy/task.py:2474-2517 | after a deletion no task row, unit or user document of a deleted task is left, and other tasks keep theirs unchanged |
| CveProxy.EmptyOverview | apollo/database/proxy/cve.py:83-89 | the overview starts with exactly the five severities |
| CveProxy.OverviewExact | apollo/database/proxy/cve.py:83-97 | the overview has exactly the five severities as keys whatever the rows; each holds the count of the last row naming it, else 0 |
| CveProxy.GetProcessedCveOverview | apollo/database/proxy/cve.py:74-97 | _get_processed_cve_overview's loop computes the specified overview (unknown severities skipped) |
| CveProxy.UpdateCveStatusAllOrNothing | apollo/database/proxy/cve.py:390-417 | NO_DATA exactly when a listed CVE has no row for the user, and then nothing changes; on success every listed row holds the new status, no row is added or removed, everything else is as it was |
| CveProxy.UpdateCveStatus | apollo/database/proxy/cve.py:364-417 | set_cve_status yields the specified code and tables |
| CveProxy.RowIds | apollo/database/proxy/cve.py:489 | succeed_list: the CVE of every row, in order |
| CveProxy.RowsOfCve | apollo/database/proxy/cve.py:483-487 | a CVE has packages and a first row iff some row names it |
| CveProxy.ActionsKeys | apollo/database/proxy/cve.py:483-487 | the summary's keys are the rows' CVEs in first-appearance order |
| CveProxy.ActionsGetRepeated | apollo/database/proxy/cve.py:486-487 | a repeated CVE keeps its first reboot flag and gains "," and the package |
| CveProxy.ActionsGetFresh | apollo/database/proxy/cve.py:484-485 | a new CVE takes its row's reboot flag and package |
| CveProxy.ActionsGet | apollo/database/proxy/cve.py:483-487 | a CVE's entry holds its first row's reboot flag and its packages joined with "," in row order |
| CveProxy.ActionsExact | apollo/database/proxy/cve.py:483-487 | one entry per CVE of the rows in first-appearance order, each with the first reboot flag and the ","-joined packages |
| CveProxy.JudgeReturnCode | apollo/database/proxy/cve.py:494-496 | SUCCEED with an empty fail list, PARTIAL_SUCCEED when both lists have entries, the default otherwise |
| CveProxy.GetProcessedCveAction | apollo/database/proxy/cve.py:469-497 | _get_processed_cve_action: the summary; SUCCEED iff every listed CVE has a row (so for an empty list), PARTIAL_SUCCEED iff there are rows and a listed CVE has none, NO_DATA iff there are no rows for a non-empty list |
| CveProxy.SplitCveRows | apollo/database/proxy/cve.py:947-957 | the CVE rows split into update (known ids) and insert (new ids), each in input order, together a permutation of the input |
| CveProxy.SplitPkgDocs | apollo/database/proxy/cve.py:1013-1023 | the package documents split the same way against the index's documents |
| CveProxy.InsertCvePkgRows | apollo/database/proxy/cve.py:976-992 | _insert_cve_pkg_rows: the package table gains exactly the rows' keys; nothing else changes |
| CveProxy.InsertDocsGet | apollo/database/proxy/cve.py:1068-1073 | after the bulk insert a CVE with documents holds its last one; any other keeps its entry |
| CveProxy.UpdateDocsGet | apollo/database/proxy/cve.py:1096-1106 | after the bulk update a CVE with documents holds its last one merged with the existing document; any other keeps its entry |
| CveProxy.LastDocFilter | apollo/database/proxy/cve.py:1019-1023 | the split keeps a CVE's last document on its own side and none on the other |
| CveProxy.SavedDocsExact | apollo/database/proxy/cve.py:994-1034 | after _save_cve_pkg_docs a CVE of the batch holds its last document, merged with the previous one when the index had it; other CVEs keep their entry or its absence |
| CveProxy.StoreWithOsListGet | apollo/database/proxy/cve.py:1096-1111 | storing with one os list: a CVE with documents ends with its last one carrying that list; any other keeps its entry |
| CveProxy.SavedDocsAsWrittenShared | apollo/database/proxy/cve.py:1096-1111 | as written, any two stored CVEs the batch updates end with one and the same os list |
| CveProxy.SavedDocsAsWrittenLeaks | apollo/database/proxy/cve.py:1096-1111 | stored CVEs A (os X) and B (os Y) in an advisory for os Z: as written A is saved with Z, X and Y |
| CveProxy.SavedDocsLeakFree | apollo/database/proxy/cve.py:1096-1111 | on the same input the intended merge saves A with Z and X |
| CveProxy.SharedOsListTwo | apollo/database/proxy/cve.py:1098-1101 | after two updated documents the shared list has the first CVE's stored list merged in, then the second's |
| CveProxy.InsertPkgDocs | apollo/database/proxy/cve.py:1059-1077 | the insert loop computes the specified index |
| CveProxy.UpdatePkgDocs | apollo/database/proxy/cve.py:1079-1113 | the update loop computes the specified index |
| CveProxy.SaveCvePkgDocs | apollo/database/proxy/cve.py:994-1034 | only the package index changes, to the specified one |
| CveProxy.SaveSecurityAdvisory | apollo/database/proxy/cve.py:912-974 | save_security_advisory: with a working store SUCCEED, the CVE table gains the new ids, the package table the rows' keys and the index the documents; otherwise DATABASE_INSERT_ERROR and no change |
| CveProxy.RelatedCveAsWritten | apollo/database/proxy/cve.py:857-885 | _get_related_cve as written: an empty package list gives none; no host CVE or no sharing CVE raises IndexError; the queried CVE missing from the sharing ones raises KeyError; a returned list never holds the queried CVE |
| CveProxy.RelatedCveAsWrittenFails | apollo/database/proxy/cve.py:870-884 | as written the lookup fails iff there are packages and the queried CVE is not among the user's CVEs sharing one; with the CVE's own packages, iff no host of the user has it |
| CveProxy.RelatedCveAsWrittenKeyError | apollo/database/proxy/cve.py:883 | a concrete store where a user's reviewed CVE is on no host while another CVE of the same package is: as written KeyError, as intended the other CVE |
| CveProxy.RelatedCve | apollo/database/proxy/cve.py:857-885 | as intended: exactly the user's host CVEs, other than the queried one, that share a package with it; none without packages |
| CveProxy.RelatedCveAgrees | apollo/database/proxy/cve.py:857-885 | wherever the code as written returns, it returns the intended set |
| PkgDocMerge.KeysOf | apollo/database/proxy/cve.py:1152-1153 | the key of every entry, in order |
| PkgDocMerge.Entries | apollo/database/proxy/cve.py:1137-1147 | every entry under its own key, in order |
| PkgDocMerge.MergedEach | apollo/database/proxy/cve.py:1151-1156 | each newer entry merged with the older entry under its key, position by position |
| PkgDocMerge.ReformatDistinct | apollo/database/proxy/cve.py:1137-1147 | without repeated keys the dict built by reformat_*_list is the list under its keys |
| PkgDocMerge.EntriesGet | apollo/database/proxy/cve.py:1154 | a key lookup finds the list's first entry with that key |
| PkgDocMerge.EntriesRemove | apollo/database/proxy/cve.py:1155 | popping a key leaves the entries of the list without that key |
| PkgDocMerge.MergeFromEntries | apollo/database/proxy/cve.py:1151-1156 | the merge loop over newer entries with distinct keys merges each with the older entry under its key and leaves the older list without those keys |
| PkgDocMerge.MergeKeyedExact | apollo/database/proxy/cve.py:1149-1171 | without repeated keys the merge is every newer entry in order, merged with its older entry if any, then the older entries no newer one has, in older order |
| PkgDocMerge.MergeKeyedFresh | apollo/database/proxy/cve.py:1162-1170 | an older entry whose key the newer list lacks is appended after it, which is otherwise kept |
| PkgDocMerge.ReformatList | apollo/database/proxy/cve.py:1137-1147 | reformat_*_list's loop: the last entry of a key wins at the first one's position |
| PkgDocMerge.MergeLists | apollo/database/proxy/cve.py:1149-1171 | the shared merge loop computes the specified merged list |
| PkgDocMerge.UnionPackages | apollo/database/proxy/cve.py:1156-1157 | the merged arch keeps its name and holds each package of either list exactly once |
| PkgDocMerge.MergeArchListExact | apollo/database/proxy/cve.py:1149-1160 | merging arch lists: each newer arch keeps its place and name, with the union of packages when the older list has it; the older-only arches follow in order |
| PkgDocMerge.MergedDocExact | apollo/database/proxy/cve.py:1116-1171 | merging documents: the newer document whose os entries keep their place, each also in the older document getting the merged arch list, then the older-only os entries in order |
| PkgDocMerge.MergeCvePkgDoc | apollo/database/proxy/cve.py:1116-1171 | _merge_cve_pkg_doc's nested loops compute the specified merged document |
| XmlTree.SplitMany | apollo/handler/cve_handler/manager/parse_advisory.py:65 | splitting a tag gives a second piece exactly when the separator occurs |
| XmlTree.TagName | apollo/handler/cve_handler/manager/parse_advisory.py:65 | the local name of a tag, IndexError iff the tag has no "}" |
| XmlTree.TagNameLocal | apollo/handler/cve_handler/manager/parse_advisory.py:65 | a `{namespace}local` tag gives back its local name |
| XmlTree.TrimLeft | apollo/handler/cve_handler/manager/parse_advisory.py:79 | drops exactly the leading whitespace: the rest is a suffix that does not start with whitespace |
| XmlTree.TrimRight | apollo/handler/cve_handler/manager/parse_advisory.py:79 | drops exactly the trailing whitespace: the rest is a prefix that does not end with whitespace |
| XmlTree.StripExact | apollo/handler/cve_handler/manager/parse_advisory.py:79 | strip leaves the stretch between leading and trailing whitespace, itself neither starting nor ending with whitespace |
| XmlTree.EntryKeys | apollo/handler/cve_handler/manager/parse_advisory.py:71-72 | the key of every child entry, in order |
| XmlTree.GroupKeys | apollo/handler/cve_handler/manager/parse_advisory.py:70-73 | the defaultdict's keys are the children's names in order of first appearance |
| XmlTree.GroupGet | apollo/handler/cve_handler/manager/parse_advisory.py:70-73 | a name holds all values of the children with that name, in order, and is absent when there are none |
| XmlTree.UnderNonEmpty | apollo/handler/cve_handler/manager/parse_advisory.py:72-73 | a name has values iff some child has that name |
| XmlTree.Collapse | apollo/handler/cve_handler/manager/parse_advisory.py:74 | each group keeps its key and is collapsed, position by position |
| XmlTree.CollapseGet | apollo/handler/cve_handler/manager/parse_advisory.py:74 | a key with one value holds the value, with several the list, and no key is added |
| XmlTree.WithAttribGet | apollo/handler/cve_handler/manager/parse_advisory.py:76-77 | after the update a key holds its last attribute's value, else what it held |
| XmlTree.NodeValueFields | apollo/handler/cve_handler/manager/parse_advisory.py:66-84 | a node with children or attributes becomes a dict: "text" holds the stripped non-blank text, else the last attribute of the key, else the children's values (one value or the list), else nothing |
| XmlTree.AllOk | apollo/handler/cve_handler/manager/parse_advisory.py:71 | all children's results, or the first error among them |
| XmlTree.EtreeToDictShape | apollo/handler/cve_handler/manager/parse_advisory.py:56-85 | etree_to_dict keys a node by its local name; a bare leaf holds its stripped text, or None without text; every child converted on the way |
| Advisory.Index | apollo/handler/cve_handler/manager/parse_advisory.py:99-102 | `v[key]` succeeds iff v is a dict holding key; KeyError on a dict, TypeError otherwise |
| Advisory.Iter | apollo/handler/cve_handler/manager/parse_advisory.py:107 | iterating fails iff the value is None; a list gives its items |
| Advisory.AsStr | apollo/handler/cve_handler/manager/parse_advisory.py:115 | a value is used as a string iff it is one |
| Advisory.AffectedComponentAbsent | apollo/handler/cve_handler/manager/parse_advisory.py:105-110 | with no note titled "Affected Component" the component is "" |
| Advisory.AffectedComponentFirst | apollo/handler/cve_handler/manager/parse_advisory.py:107-110 | the first note so titled gives its text (the loop breaks) |
| Advisory.Packages | apollo/handler/cve_handler/manager/parse_advisory.py:112-115 | an empty or missing component raises ParseAdvisoryError, a non-string one AttributeError; otherwise comma-free pieces that join back to the component |
| Advisory.DescriptionOf | apollo/handler/cve_handler/manager/parse_advisory.py:187 | AttributeError iff the note is not a dict; otherwise its "text" whatever its shape, "" when absent |
| Advisory.CveEntry | apollo/handler/cve_handler/manager/parse_advisory.py:174-188 | a read CVE row never needs a reboot, carries the string CVE id read, and the release date, severity, score and description exactly as read |
| Advisory.NoteErrorBeforeId | apollo/handler/cve_handler/manager/parse_advisory.py:174-188 | the id is hashed only when the description is filed under it, so a note that is not a dict fails with AttributeError whatever the id holds |
| Advisory.PkgRowsFor | apollo/handler/cve_handler/manager/parse_advisory.py:183-184 | one row per affected package, in order, for the CVE |
| Advisory.CollectErrSticks | apollo/handler/cve_handler/manager/parse_advisory.py:173 | once a vulnerability fails the parse fails with its error |
| Advisory.AppendPkgRows | apollo/handler/cve_handler/manager/parse_advisory.py:183-184 | the inner loop appends the CVE's package rows |
| Advisory.ParseCveInfo | apollo/handler/cve_handler/manager/parse_advisory.py:131-190 | parse_cve_info's loops compute the specified fold |
| Advisory.CollectOk | apollo/handler/cve_handler/manager/parse_advisory.py:173-188 | the fold succeeds iff every vulnerability reads |
| Advisory.ParseCveInfoOk | apollo/handler/cve_handler/manager/parse_advisory.py:131-190 | parse_cve_info succeeds iff every vulnerability can be read |
| Advisory.PkgRowsOfAt | apollo/handler/cve_handler/manager/parse_advisory.py:173-184 | package row i * n + j pairs CVE row i with package j |
| Advisory.CollectPkgRows | apollo/handler/cve_handler/manager/parse_advisory.py:173-184 | the package rows are, CVE row by CVE row, one per affected package |
| Advisory.ParseCveInfoRows | apollo/handler/cve_handler/manager/parse_advisory.py:173-182 | one CVE row per vulnerability, read from it, none needing a reboot |
| Advisory.ParseCvePkgRows | apollo/handler/cve_handler/manager/parse_advisory.py:183-184 | |cves| * |pkgs| package rows, laid out CVE by CVE |
| Advisory.CollectDescriptions | apollo/handler/cve_handler/manager/parse_advisory.py:186-188 | the described CVEs are the rows' ids in order of first appearance, each once |
| Advisory.AfterFirst | apollo/handler/cve_handler/manager/parse_advisory.py:254 | the text after the first separator, none iff it does not occur |
| Advisory.OsVersionOfCpe | apollo/handler/cve_handler/manager/parse_advisory.py:258-259 | the os version of a CPE name is what follows its third colon |
| Advisory.BranchStep | apollo/handler/cve_handler/manager/parse_advisory.py:249-250 | a "Product Name" branch changes nothing |
| Advisory.EmptyBranchIgnoresArch | apollo/handler/cve_handler/manager/parse_advisory.py:251-260 | a branch with an empty package list files nothing and never hashes its arch name |
| Advisory.CpeErrorBeforeArch | apollo/handler/cve_handler/manager/parse_advisory.py:253-255 | a CPE that is not a string fails with AttributeError before the arch name is hashed |
| Advisory.ProductNameIgnored | apollo/handler/cve_handler/manager/parse_advisory.py:248-260 | leaving out the "Product Name" branches gives the same os dict |
| Advisory.OsDictUnique | apollo/handler/cve_handler/manager/parse_advisory.py:247-260 | the nested defaultdicts never repeat an os version or an arch |
| Advisory.OsListOf | apollo/handler/cve_handler/manager/parse_advisory.py:263-269 | one os entry per os version |
| Advisory.ArchListOf | apollo/handler/cve_handler/manager/parse_advisory.py:265-267 | one arch entry per arch |
| Advisory.DocsOf | apollo/handler/cve_handler/manager/parse_advisory.py:271-274 | one document per described CVE |
| Advisory.ParseArchInfo | apollo/handler/cve_handler/manager/parse_advisory.py:193-275 | parse_arch_info's loops compute the specified documents |
| Advisory.OsDictErrSticks | apollo/handler/cve_handler/manager/parse_advisory.py:248-260 | once a branch fails the whole pass fails with its error |
| Advisory.ParseArchInfoDocs | apollo/handler/cve_handler/manager/parse_advisory.py:247-275 | one document per described CVE with its description, all sharing one os list that follows the os dict, updated at the publish time, with distinct os versions and arch names |
| Advisory.SingleVulnerability | apollo/handler/cve_handler/manager/parse_advisory.py:119-120 | a single vulnerability dict is read as a list of one |
| Advisory.Converted | apollo/handler/cve_handler/manager/parse_advisory.py:125-127 | KeyError and TypeError become ParseAdvisoryError; other errors pass unchanged |
| Advisory.NoAffectedComponent | apollo/handler/cve_handler/manager/parse_advisory.py:99-113 | without an "Affected Component" note the advisory is refused with ParseAdvisoryError |
| Advisory.BodyErrorsConverted | apollo/handler/cve_handler/manager/parse_advisory.py:122-128 | errors inside the handler never escape as KeyError or TypeError, and the parse succeeds iff the body does |
| Advisory.ParseCvrfDictShape | apollo/handler/cve_handler/manager/parse_advisory.py:88-128 | one CVE row per vulnerability, one package row per vulnerability and package, one document per distinct CVE in order of first appearance |
| Callbacks.OutputField | apollo/handler/task_handler/callback/cve_scan.py:42-66 | the output is read from "stdout" exactly for a step that ran through |
| Callbacks.RunnerStatusOf | apollo/handler/task_handler/callback/cve_scan.py:42-66 | the runner status is "succeed" exactly for a step that ran through and "unreachable" exactly for an unreachable host |
| Callbacks.FixStatus | apollo/handler/task_handler/callback/cve_fix.py:26-36 | a fix step fixes the CVE exactly when it ran through; otherwise the CVE stays unfixed |
| Callbacks.RollbackStatus | apollo/handler/task_handler/callback/cve_rollback.py:27-37 | a rollback step leaves the CVE unfixed exactly when it ran through; otherwise it stays fixed |
| Callbacks.RollbackInvertsFix | apollo/handler/task_handler/callback/cve_rollback.py:27-37 | on every outcome the rollback status is the opposite of the fix status |
| Callbacks.RepoStatusOf | apollo/handler/task_handler/callback/repo_set.py:27-37 | the repo is set exactly when the step ran through |
| Callbacks.WithEntry | apollo/handler/task_handler/callback/cve_fix.py:50 | writing one step's entry adds the host if missing and changes no other host or step |
| Callbacks.WithEntryTwice | apollo/handler/task_handler/callback/cve_fix.py:27-28 | recording the runner entry and then replacing its status equals writing the final entry once |
| Callbacks.FiledMovesEntry | apollo/handler/task_handler/callback/cve_fix.py:55 | filing a check step moves its entry unchanged from result to check_result and touches no other host or step |
| Callbacks.CveStepTouchesOneUnit | apollo/handler/task_handler/callback/cve_fix.py:51-53 | one CVE step issues exactly its two writes and changes at most its own unit's status and its own CVE's progress, capped at host_num |
| Callbacks.CveCallback.SaveToDb | apollo/handler/task_handler/callback/cve_fix.py:38-55 | a step naming a CVE of the task gets the CVE status and its two writes; any other step is filed as a check item with no write |
| Callbacks.CveCallback.OnOutcome | apollo/handler/task_handler/callback/cve_fix.py:26-36 | each runner event records the output and, by the step's name, either the CVE status and its writes or the filed check item (cve_rollback.py:27-37 with the statuses swapped) |
| Callbacks.RepoStepWrites | apollo/handler/task_handler/callback/repo_set.py:52-55 | a "set repo" step writes its host's repo status and records the repo name on the host exactly when the repo was set; nothing else changes |
| Callbacks.RepoSetCallback.SaveToDb | apollo/handler/task_handler/callback/repo_set.py:39-58 | "set repo" gets the repo status and writes; a "check" step is filed; any other step stays in result with no write |
| Callbacks.RepoSetCallback.OnOutcome | apollo/handler/task_handler/callback/repo_set.py:27-37 | each runner event records the output and then does what save_to_db does for the step |
| Callbacks.HostsByNameLastWins | apollo/handler/task_handler/callback/cve_scan.py:36-39 | every listed host name is a key, holding the last host listed under it |
| Callbacks.ScanFinishedOneHost | apollo/handler/task_handler/callback/cve_scan.py:81-82 | one scan event marks its one host's scan "done" and changes nothing else |
| Callbacks.CveScanCallback.constructor | apollo/handler/task_handler/callback/cve_scan.py:28-40 | the host map is keyed by host name with no task id |
| Callbacks.CveScanCallback.OnOutcome | apollo/handler/task_handler/callback/cve_scan.py:42-70 | each runner event records its output and runner status and marks the host's scan done, whatever the outcome |
| Callbacks.CveScanCallback.SaveToDb | apollo/handler/task_handler/callback/cve_scan.py:72-83 | one update_scan_status for the host |
| Managers.PathJoin | apollo/handler/task_handler/manager/__init__.py:44-45 | the joined path ends with the name and, for a relative name, starts with the directory |
| Managers.CheckItemsExact | apollo/handler/task_handler/manager/__init__.py:91-98 | one check item per check, in order, each passed iff the runner reported success |
| Managers.RecordCheckInfo | apollo/handler/task_handler/manager/__init__.py:79-98 | _record_check_info appends the host's check items and sets "fail" iff one failed, never "succeed"; no checks leave the record alone |
| Managers.FixEntriesExact | apollo/handler/task_handler/manager/cve_fix_manager.py:107-119 | one result per assigned CVE, in order: the callback's log and status, or "" and "unknown" when none was reported |
| Managers.RecordFixInfo | apollo/handler/task_handler/manager/cve_fix_manager.py:96-119 | _record_fix_info appends the CVE results and sets "fail" iff a CVE is unreported or unfixed |
| Managers.HostResultStatus | apollo/handler/task_handler/manager/cve_fix_manager.py:69-83 | a host's entry is "fail" iff a check failed or a CVE is unreported or unfixed; it lists the host's checks and CVEs in order |
| Managers.HostEntry | apollo/handler/task_handler/manager/cve_fix_manager.py:70-81 | one host's log entry, as specified |
| Managers.BuildTaskResult | apollo/handler/task_handler/manager/cve_fix_manager.py:68-83 | the loop stops iff a host has CVEs but no callback result; otherwise one entry per host in the task's host order |
| Managers.FaultHandledClosesRun | apollo/handler/task_handler/manager/cve_fix_manager.py:88-94 | after fault_handle no unit of the task is running and each of its CVEs shows all its hosts done; other tasks are untouched |
| Managers.CveFixManager.constructor | apollo/handler/task_handler/manager/__init__.py:33-46 | the inventory and playbook paths are named after the task; the clock is read once |
| Managers.CveFixManager.PreHandle | apollo/handler/task_handler/manager/cve_fix_manager.py:31-47 | pre_handle succeeds iff the units could be set running; the execute time is written only then, and its failure is ignored |
| Managers.CveFixManager.SaveResult | apollo/handler/task_handler/manager/__init__.py:100-115 | only the task's log field changes, to the run log |
| Managers.CveFixManager.FaultHandle | apollo/handler/task_handler/manager/cve_fix_manager.py:88-94 | progress filled, then the running units closed |
| Managers.CveFixManager.PostHandle | apollo/handler/task_handler/manager/cve_fix_manager.py:60-86 | post_handle stops before any write iff a host has CVEs but no result; otherwise it saves the run log and then closes the run |
| Managers.CveFixManager.ExecuteTask | apollo/handler/task_handler/manager/__init__.py:72-77 | execute_task: post_handle on the callback's result after the playbook ran |
| Cache.ItemIds | apollo/handler/task_handler/cache.py:65-67 | the CVE of every item, in order |
| Cache.WithHostExact | apollo/handler/task_handler/cache.py:70-75 | one host dict: a known host gains the CVE, a new one is added with the CVE as its only one; keys and CVE lists stay free of repeats |
| Cache.WithHostsExact | apollo/handler/task_handler/cache.py:69-75 | one CVE's host dicts: a host is present iff it was or is listed, keeps its first id and ip, and gains exactly this CVE |
| Cache.CveHostsExact | apollo/handler/task_handler/cache.py:64-76 | the "host" dict has one entry per listed host name, with the id and ip of the first dict listing it and exactly the CVEs listing it, each once |
| Cache.AddHosts | apollo/handler/task_handler/cache.py:69-75 | the inner loop computes the specified host dict |
| Cache.MakeCveInfo | apollo/handler/task_handler/cache.py:27-76 | make_cve_info: the task's CVEs in first-appearance order and the specified host dict |
| Cache.MakeHostInfo | apollo/handler/task_handler/cache.py:79-110 | make_host_info: host dicts by name, a later one replacing an earlier one |
| Cache.TaskCache.constructor | apollo/handler/task_handler/cache.py:21 | an empty cache of the given capacity |
| Cache.TaskCache.Lookup | apollo/handler/task_handler/cache.py:123 | get finds a value iff the task is cached, and then the cached value |
| Cache.TaskCache.Put | apollo/handler/task_handler/cache.py:128 | put stores the value; only when the cache is full and the task new may one other entry go; the rest keep their values |
| Cache.TaskCache.QueryRepoInfo | apollo/handler/task_handler/cache.py:112-130 | a hit returns the cached map and changes nothing; a miss builds the map from the repo data, caches it and returns it |
| Cache.NewTaskCache | apollo/handler/task_handler/cache.py:135 | the global cache holds 100 entries and starts empty |
| Sweeper.GetAbnormalTask | apollo/cron/timed_correct_manager.py:53-72 | get_abnormal_task's loop computes the abnormal ids in listing order |
| Sweeper.AbnormalIdsSubsequence | apollo/cron/timed_correct_manager.py:68-70 | the abnormal ids are a subsequence of the running tasks' ids, a task picked iff threshold minutes have passed since its creation |
| Sweeper.AbnormalIgnoresType | apollo/cron/timed_correct_manager.py:68 | the task type plays no part |
| Sweeper.AbnormalGrowsWithTime | apollo/cron/timed_correct_manager.py:69 | a later sweep over the same tasks picks at least as many |
| Sweeper.TaskEnter | apollo/cron/timed_correct_manager.py:37-51 | update_task_status is called iff some running task is abnormal, with exactly the abnormal ids |
| Playbooks.GetCveList | apollo/handler/task_handler/manager/playbook_manager.py:68-84 | get_cve_list's loop keeps the present cve ids in order |
| Playbooks.CveIdsExact | apollo/handler/task_handler/manager/playbook_manager.py:79-82 | a CVE is listed iff some entry carries it; never more ids than entries |
| Playbooks.AddCheckItems | apollo/handler/task_handler/manager/playbook_manager.py:108-134 | add_check_items appends one check play per item, in order |
| Playbooks.ConditionTestsEveryCheck | apollo/handler/task_handler/manager/playbook_manager.py:102-105 | the check condition tests, joined by " and ", exactly the results the check plays register, in play order |
| Playbooks.CheckConditionSnoc | apollo/handler/task_handler/manager/playbook_manager.py:103-105 | one more check item adds " and " and its term at the end of the condition |
| Playbooks.CreateCheckTask | apollo/handler/task_handler/manager/playbook_manager.py:136-152 | create_check_task: [] without check items, else the template and the check plays |
| Playbooks.CreateInventory | apollo/handler/task_handler/manager/playbook_manager.py:154-173 | create_inventory: the single group "total_hosts" of the listed hosts |
| Playbooks.HostGroupExact | apollo/handler/task_handler/manager/playbook_manager.py:165-169 | a host is in the group iff listed, with the address of its last listing |
| Playbooks.AddFixHostsLoop | apollo/handler/task_handler/manager/playbook_manager.py:331-339 | the host loop of create_fix_inventory computes the specified inventory |
| Playbooks.CreateFixInventory | apollo/handler/task_handler/manager/playbook_manager.py:301-347 | create_fix_inventory's loops compute the specified inventory |
| Playbooks.AddFixHostsEffect | apollo/handler/task_handler/manager/playbook_manager.py:331-339 | each host of an entry goes into "total_hosts", its CVE's group and, for a rebooting CVE, "reboot_hosts"; no group is lost |
| Playbooks.FixGroupsExact | apollo/handler/task_handler/manager/playbook_manager.py:323-339 | both fixed groups exist, and a CVE has a group iff a kept entry names it |
| Playbooks.FixSharedGroupsExact | apollo/handler/task_handler/manager/playbook_manager.py:331-339 | "total_hosts" holds every host of a kept entry, "reboot_hosts" every host of a kept rebooting entry |
| Playbooks.FixHostVarsListed | apollo/handler/task_handler/manager/playbook_manager.py:332-335 | every grouped host carries an address some kept entry lists it with |
| Playbooks.FixCveGroupExact | apollo/handler/task_handler/manager/playbook_manager.py:329-335 | a CVE's group holds exactly the hosts of the last kept entry naming it |
| Playbooks.FixInventoryExact | apollo/handler/task_handler/manager/playbook_manager.py:301-347 | entries without cve id or hosts are skipped; "total_hosts" holds every kept host; "reboot_hosts" exists iff a kept entry reboots and holds those hosts; a CVE has a group iff a kept entry names it |
| Playbooks.CreateFixPlaybook | apollo/handler/task_handler/manager/playbook_manager.py:349-386 | create_fix_playbook's loop computes the specified playbook |
| Playbooks.FixPlaysShape | apollo/handler/task_handler/manager/playbook_manager.py:243-299 | every fix play is one step named after its CVE on its group, ignoring errors, guarded iff there are checks; rpm mode installs the CVE's packages, other modes upgrade by CVE |
| Playbooks.FixPlaysCover | apollo/handler/task_handler/manager/playbook_manager.py:366-378 | a CVE gets a fix play iff some entry carries it and it has a fix parameter |
| Playbooks.FixPlaysCount | apollo/handler/task_handler/manager/playbook_manager.py:366-378 | outside rpm mode every entry with a cve id gets exactly one fix play |
| Playbooks.FixPlaybookShape | apollo/handler/task_handler/manager/playbook_manager.py:363-381 | the check task comes first, and the playbook ends with the reboot template iff some CVE reboots |
| Playbooks.CreateRollbackPlaybook | apollo/handler/task_handler/manager/playbook_manager.py:432-460 | create_rollback_playbook: the specified plays and the dash-free uuid as task id |
| Playbooks.RemoveDashes | apollo/handler/task_handler/manager/playbook_manager.py:445 | the loop removes the dashes |
| Playbooks.RollbackTaskIdExact | apollo/handler/task_handler/manager/playbook_manager.py:445 | the task id has no dash and keeps every other character of the uuid |
| Playbooks.RollbackPlaybookExact | apollo/handler/task_handler/manager/playbook_manager.py:389-455 | one play per listed CVE with packages, in order, none for the others; each runs the packages joined by blanks as one unguarded shell step on the CVE's group |
| Playbooks.ScanPlaybook | apollo/handler/task_handler/manager/playbook_manager.py:468-493 | CveScanPlaybook.create_playbook: one play on "total_hosts" whose steps are unguarded, keep their errors and are no checks |
| Playbooks.ScanPlaybookOnInventory | apollo/handler/task_handler/manager/playbook_manager.py:476-477 | the scan play targets the one group of the scan inventory, which holds exactly the listed hosts |
| Playbooks.CreateRepoPlaybook | apollo/handler/task_handler/manager/playbook_manager.py:585-625 | create_playbook appends the repo play and then guards its two steps in place |
| Playbooks.RepoPlaybookSteps | apollo/handler/task_handler/manager/playbook_manager.py:585-619 | every step before the repo play is an unguarded check; the repo play is "copy repo" then "set repo", guarded iff there are check items |
| HotpatchSelect.StateOverExact | hotpatch/hotpatch_updateinfo.py:211-225 | a hotpatch is INSTALLED iff some installed package of its source package has its version-release and syscare reports it ACTIVED or ACCEPTED, INSTALLABLE iff one matches and syscare does not, else UNINSTALLABLE |
| HotpatchSelect.StateFor | hotpatch/hotpatch_updateinfo.py:212-225 | the loop over the installed packages computes the specified state |
| HotpatchSelect.DropNonDigits | hotpatch/hotpatch_updateinfo.py:330 | what is left after skipping non-digits starts with a digit, if anything |
| HotpatchSelect.TakeDigits | hotpatch/hotpatch_updateinfo.py:330 | the run taken is all digits and not empty after a leading digit |
| HotpatchSelect.HpNumberNone | hotpatch/hotpatch_updateinfo.py:330 | the first digit run's value exists iff the name holds a digit |
| HotpatchSelect.NoDigitsDrop | hotpatch/hotpatch_updateinfo.py:330 | skipping non-digits leaves nothing iff the name has no digit |
| HotpatchSelect.Best | hotpatch/hotpatch_updateinfo.py:330-331 | the pick is a member of the group |
| HotpatchSelect.BestIndex | hotpatch/hotpatch_updateinfo.py:330-331 | the pick has the group's largest number and is its first hotpatch with it (the sort is stable) |
| HotpatchSelect.OfSrc | hotpatch/hotpatch_updateinfo.py:322 | the group holds exactly the hotpatches of the source package |
| HotpatchSelect.GroupBySrcGet | hotpatch/hotpatch_updateinfo.py:321-324 | each source package's group holds its hotpatches in order, and no group is empty |
| HotpatchSelect.GroupBySrcKeys | hotpatch/hotpatch_updateinfo.py:321-324 | the groups are keyed by the source packages in order of first appearance |
| HotpatchSelect.PicksOfExact | hotpatch/hotpatch_updateinfo.py:328-331 | one nevra per group, the group's best |
| HotpatchSelect.SelectForCveExact | hotpatch/hotpatch_updateinfo.py:315-331 | a CVE with an installed hotpatch offers nothing; otherwise one nevra per source package of its installable hotpatches, in first-appearance order, the one with the largest number; uninstallable ones never |
| HotpatchSelect.PickBest | hotpatch/hotpatch_updateinfo.py:330-331 | the sort-then-first succeeds iff the group is non-empty and every name has a digit, giving the best; otherwise IndexError |
| HotpatchSelect.GroupBySrcSnoc | hotpatch/hotpatch_updateinfo.py:322-324 | setdefault-append adds the hotpatch at the end of its source package's group |
| HotpatchSelect.GroupInstallable | hotpatch/hotpatch_updateinfo.py:317-324 | the pass finds whether a hotpatch is installed and groups the installable ones |
| HotpatchSelect.SelectHotpatches | hotpatch/hotpatch_updateinfo.py:315-331 | the loop body for one CVE computes the specified offer |
| HotpatchSelect.PicksErrSticks | hotpatch/hotpatch_updateinfo.py:328-331 | once a group fails, the CVE's lookup fails with that error |
| HotpatchSelect.AdvisoryHotpatchesExact | hotpatch/hotpatch_updateinfo.py:353-356 | an advisory lists exactly its installable hotpatches' nevras, in order |
| Hotpatches.PackageStep | hotpatch/hotpatch_updateinfo.py:117-122 | a package parses iff it has an arch and, when that arch is supported, a filename; a kept package has a supported arch and its own attributes |
| Hotpatches.PkgListExact | hotpatch/hotpatch_updateinfo.py:108-123 | the list parses iff every package does, and then holds the supported-arch packages in order |
| Hotpatches.PkgListArches | hotpatch/hotpatch_updateinfo.py:119-120 | every parsed package has a supported arch |
| Hotpatches.PkgListErrSticks | hotpatch/hotpatch_updateinfo.py:117-122 | once a package fails the whole list fails with its error |
| Hotpatches.ParsePkgList | hotpatch/hotpatch_updateinfo.py:108-123 | _parse_pkglist's loop computes the specified list |
| Hotpatches.ParseReferences | hotpatch/hotpatch_updateinfo.py:125-135 | _parse_references keeps exactly the references with an id, in order |
| Hotpatches.NewHotpatches | hotpatch/hotpatch_updateinfo.py:185-190 | one new hotpatch per entry, with its attributes, its comma-split CVEs and its advisory |
| Hotpatches.Range | hotpatch/hotpatch_updateinfo.py:192 | the advisory's hotpatches are the new positions in order |
| Hotpatches.AttachGet | hotpatch/hotpatch_updateinfo.py:194-195 | attaching a hotpatch appends it to each CVE it names, once per naming |
| Hotpatches.AttachOther | hotpatch/hotpatch_updateinfo.py:194-195 | attaching a hotpatch touches no CVE it does not name |
| Hotpatches.AttachAllGet | hotpatch/hotpatch_updateinfo.py:182-195 | each CVE gains exactly the advisory's hotpatches naming it, in order |
| Hotpatches.AttachAllUntouched | hotpatch/hotpatch_updateinfo.py:182-195 | a CVE no hotpatch names is unchanged |
| Hotpatches.ResetGet | hotpatch/hotpatch_updateinfo.py:176-179 | each reference starts a fresh, empty CVE; other CVEs keep their entry |
| Hotpatches.ReferencingMembers | hotpatch/hotpatch_updateinfo.py:194-195 | a position is listed under a CVE iff the hotpatch there names it |
| Hotpatches.StoredCvesGet | hotpatch/hotpatch_updateinfo.py:172-197 | after storing, each reference lists exactly the new hotpatches naming it, replacing what it held; other CVEs are unchanged |
| Hotpatches.SyscareStatusOf | hotpatch/hotpatch_updateinfo.py:277-293 | a name's syscare status is the last status syscare lists for it, or "" when it lists none |
| Hotpatches.At | hotpatch/hotpatch_updateinfo.py:318 | the hotpatches at the listed positions, in order |
| Hotpatches.OffersOf | hotpatch/hotpatch_updateinfo.py:310-331 | each requested id with what it offers |
| Hotpatches.GatherOk | hotpatch/hotpatch_updateinfo.py:310-331 | the mapping is built iff every offer succeeds |
| Hotpatches.GatherExact | hotpatch/hotpatch_updateinfo.py:309-333 | the mapping's keys are the requested ids in first-appearance order, each with its offer |
| Hotpatches.FromCvesExact | hotpatch/hotpatch_updateinfo.py:295-333 | get_hotpatches_from_cve fails iff some CVE's selection fails; otherwise every requested CVE is a key, in first-appearance order, mapped to its offer ([] for an unknown CVE) |
| Hotpatches.GatherErrSticks | hotpatch/hotpatch_updateinfo.py:310-331 | once an offer fails the query fails with its error |
| Hotpatches.FromAdvisoriesExact | hotpatch/hotpatch_updateinfo.py:335-357 | get_hotpatches_from_advisories: every requested id is a key, in first-appearance order, mapped to its installable hotpatches ([] for an unknown advisory) |
| Hotpatches.InstallableNevras | hotpatch/hotpatch_updateinfo.py:353-356 | the inner loop lists the advisory's installable nevras |
| Hotpatches.HotpatchUpdateInfo.constructor | hotpatch/hotpatch_updateinfo.py:168-197 | the store starts empty |
| Hotpatches.HotpatchUpdateInfo.StoreAdvisoryInfo | hotpatch/hotpatch_updateinfo.py:168-197 | KeyError iff a hotpatch lacks an id or names a CVE outside the references, then nothing changes; otherwise the new hotpatches are appended UNINSTALLABLE, the CVEs updated as specified and the advisory stored |
| Hotpatches.HotpatchUpdateInfo.InitStatusFromSyscare | hotpatch/hotpatch_updateinfo.py:277-285 | the status table is built from the syscare list; nothing else changes |
| Hotpatches.HotpatchUpdateInfo.InitHotpatchState | hotpatch/hotpatch_updateinfo.py:199-225 | every hotpatch an advisory lists gets the state its source package and syscare give it; nothing else changes |
| Hotpatches.HotpatchUpdateInfo.GetHotpatchesFromCve | hotpatch/hotpatch_updateinfo.py:295-333 | the loop computes the specified query result |
| Hotpatches.HotpatchUpdateInfo.GetHotpatchesFromAdvisories | hotpatch/hotpatch_updateinfo.py:335-357 | the loop computes the specified query result |
| Hotpatches.ResetRefs | hotpatch/hotpatch_updateinfo.py:176-179 | the reference loop computes the reset CVE table |
| Hotpatches.AddHotpatches | hotpatch/hotpatch_updateinfo.py:182-195 | the hotpatch loop appends the new hotpatches and attaches each to its CVEs |
| Hotpatches.AttachIds | hotpatch/hotpatch_updateinfo.py:194-195 | the inner loop attaches the hotpatch to the CVEs it names |
| Hotpatches.CheckStorable | hotpatch/hotpatch_updateinfo.py:185-195 | the check finds exactly the advisories that store without KeyError |
| HotDisplay.HotpatchStepsShadow | hotpatch/hot_updateinfo.py:180-191 | the loop over a CVE's hotpatches only appends lines and only grows the fixed set, and every line it appends carries the CVE or a CVE it marked fixed, although `cve_id` is rebound at line 187 |
| HotDisplay.InstalledMarksFixed | hotpatch/hot_updateinfo.py:183-189 | an INSTALLED hotpatch of the package that names the CVE marks the CVE fixed |
| HotDisplay.FixedGrows | hotpatch/hot_updateinfo.py:185-188 | one hotpatch never unfixes a CVE, and an INSTALLED one of the package fixes all its CVEs |
| HotDisplay.HotpatchStepLine | hotpatch/hot_updateinfo.py:181-191 | each hotpatch leaves one line unless it is an INSTALLED one of the package; the line holds the nevra iff the hotpatch is an INSTALLABLE one of the package |
| HotDisplay.HpOnlyStepExact | hotpatch/hot_updateinfo.py:195-203 | a hotpatch-only CVE is fixed iff one of its hotpatches is INSTALLED, and gets one line per other hotpatch, in order: the nevra for an INSTALLABLE one, '-' otherwise |
| HotDisplay.CveStepFrom | hotpatch/hot_updateinfo.py:175-191 | one listed CVE adds only lines naming an allowed or a fixed CVE |
| HotDisplay.EntryStepsFrom | hotpatch/hot_updateinfo.py:172-191 | one package adds only lines naming one of its CVEs or a fixed one |
| HotDisplay.EntriesStepsFrom | hotpatch/hot_updateinfo.py:170-191 | the listing's lines name a listed CVE or a fixed one |
| HotDisplay.HpOnlyStepsFrom | hotpatch/hot_updateinfo.py:194-203 | the hotpatch-only loop adds only lines naming its own CVEs |
| HotDisplay.BuildLinesFrom | hotpatch/hot_updateinfo.py:166-203 | every echo line names a listed CVE, a CVE of the hotpatch data, or a fixed CVE |
| HotDisplay.MarkFixed | hotpatch/hot_updateinfo.py:187-188 | the CVEs are added to the fixed set and `cve_id` is left at the last of them |
| HotDisplay.HotpatchLines | hotpatch/hot_updateinfo.py:180-191 | the loop (append, then pop or fill in) computes the specified lines, fixed set and `cve_id` |
| HotDisplay.EntryLines | hotpatch/hot_updateinfo.py:172-191 | the loop over one package's CVEs computes the specified lines and records its CVEs as iterated |
| HotDisplay.CvesOfSnoc | hotpatch/hot_updateinfo.py:173 | one more CVE adds exactly it to the iterated set |
| HotDisplay.ListedLines | hotpatch/hot_updateinfo.py:170-191 | the loop over the sorted packages computes the specified lines, fixed set and iterated set |
| HotDisplay.HpOnlyLines | hotpatch/hot_updateinfo.py:193-203 | the loop over the hotpatch-only CVEs computes the specified lines and fixed set |
| HotDisplay.MaxWidth | hotpatch/hot_updateinfo.py:123-137 | the width bounds every kept line's column and is attained by one, or is 0 |
| HotDisplay.StrLeTotal | hotpatch/hot_updateinfo.py:141 | Python's string order is total |
| HotDisplay.StrLeAntisym | hotpatch/hot_updateinfo.py:141 | and antisymmetric |
| HotDisplay.StrLeTrans | hotpatch/hot_updateinfo.py:141 | and transitive |
| HotDisplay.KeyLeTotal | hotpatch/hot_updateinfo.py:141 | the (coldpatch, hotpatch) order is total |
| HotDisplay.KeyLeTrans | hotpatch/hot_updateinfo.py:141 | and transitive |
| HotDisplay.Insert | hotpatch/hot_updateinfo.py:141 | insertion adds exactly the one line |
| HotDisplay.InsertSorted | hotpatch/hot_updateinfo.py:141 | insertion keeps the lines sorted |
| HotDisplay.FilterAndFormat | hotpatch/hot_updateinfo.py:115-145 | the widths are the widest kept columns (0 when nothing is kept); the lines are exactly the kept lines, without duplicates, sorted by coldpatch then hotpatch |
| HotDisplay.SortLines | hotpatch/hot_updateinfo.py:141 | the sort gives a sorted permutation |
| HotDisplay.DistinctMultiset | hotpatch/hot_updateinfo.py:124-141 | a permutation of a set's lines holds each once |
| HotDisplay.KeptMembers | hotpatch/hot_updateinfo.py:125-138 | a formatted line is kept iff some echo line passes the filter, is not fixed and formats to it |
| HotDisplay.Display | hotpatch/hot_updateinfo.py:147-207 | the display item of the built lines; every displayed line names a listed or hotpatch-data CVE that passes the filter and is not fixed |

## Left out

- Database plumbing: the SQL sessions, query builders, commit and rollback, and the search-index client. Each table is a map in `Store.Database`, and a transaction the database cannot complete is `db.online == false`: the operation returns its error code and changes nothing. The compensating deletes after a failed bulk insert are modelled by their outcome: nothing changes. The one partial write of the source is modelled: when the search-index insert of a new task fails, the task row committed before it stays (`TaskGen.GenerateCveTask`, `TaskGen.GenerateRepoTask`, parameter `indexUp`).
- The Ansible runner and `Manager.handle`: their code is not part of this model, so `Managers` takes the callback after the run, with the runner's records already in it. The `TaskCallback` base class (`_record_info`) and the REPO_STATUS constants are not part of this model either; they are modelled from the repository's tests as Set/Unset.
- Runner concurrency: callback events arrive one at a time. The three runner hooks of each callback differ only in the outcome, so they are one `OnOutcome` method with the outcome as a parameter.
- Clocks, uuids and outside programs are parameters: `time.time()`, `uuid.uuid1()`, `Syscare().list()`, the dnf sack and its installed packages, and the supported architectures.
- File and command I/O: `yaml_write`, `is_existed`, `Playbook._check_file`, `check_pb_and_inventory`, `RepoPlaybook.check_repo` and `check_repo_data` (the repository path is a parameter), gzip and XML file reading, and directory traversal. The hotpatch plugin's updateinfo reading starts from the parsed package and reference lists.
- `_verify_date_str_lawyer`: date parsing depends on the time zone and the date library, so the dates stay strings.
- The LRU cache base class is not part of this model: eviction is abstract, and when the cache is full some other entry makes room. Only the capacity is kept.
- The sweeper's proxy calls `get_task_create_time` and `update_task_status` are not in the task proxy shown. The running tasks are an input, and the update is a returned decision. The connect-failure path that does not return is not modelled.
- Python set order. The model uses first-seen order or a Dafny `set` instead for: the package union in `_merge_cve_pkg_doc`, the related-CVE list, the packages of a CVE that `_process_cve_task_data` joins with "," from a set (apollo/database/proxy/task.py:921, :928; `TaskView.CveInfo.packages` keeps the set), and the hotpatch-only CVEs of the `list cves` table (hotpatch/hot_updateinfo.py:193). The final sort (hotpatch/hot_updateinfo.py:141) orders by the coldpatch and hotpatch columns only, so two CVEs with the same pair tie, and Python leaves them in set order; `HotDisplay.SortLines` and `HotDisplay.FilterAndFormat` promise order by those two columns and a permutation, not the order among ties.
- Python dict order where it reaches no output: inventory groups are a map, so the order of the inventory's group keys is not modelled.
- The constant play keys (`gather_facts`, `become`, `become_user`) are not carried, because every play has the same ones.
- JSON and YAML serialisation: the result documents, run logs, playbooks and inventories are datatypes. The `XmlTree.Value` type holds only null, strings, dicts and lists, which is all that `etree_to_dict` builds.
- `display()`, `set_argparser`, `configure`, `run` and `get_mapping_nevra_cve` of the hot-updateinfo command: printing and command plumbing. The type-to-label mapping comes in with each CVE.
- `HotpatchSelect.HpNumberNone`: `\d` counts only ASCII digits; Python's also matches other Unicode decimal digits.
- `_merge_cve_pkg_doc` updates the new document in place; the model returns the merged document as a value. What that in-place update does to the os list the documents of one advisory share is under "## Findings".
- CveProxy.UpdateDocsGet: states the intended per-CVE merge. As written, every updated document is saved with the advisory's shared os list after all merges (see "## Findings", `CveProxy.SavedDocsAsWrittenShared`).
- CveProxy.SavedDocsExact: the same intended per-CVE merge; the as-written save is `CveProxy.SavedDocsAsWritten`.
- CveProxy.UpdatePkgDocs: computes the intended per-CVE merge, not the shared os list as written.
- CveProxy.SaveCvePkgDocs: stores the intended per-CVE merge, not the shared os list as written.
- CveProxy.SaveSecurityAdvisory: saves the documents with the intended per-CVE merge, not the shared os list as written.
- CveProxy.GetProcessedCveAction: `judge_return_code` of the shared database helper is not part of this model; `CveProxy.JudgeReturnCode` states the behaviour assumed of it.
- Advisory.CveEntry: a CVE id that is not a string is refused with TypeError, at the point where the source files the description under it (parse_advisory.py:188), after every other lookup of the vulnerability. The source refuses a dict or list id there the same way, but it keeps a None id, from an empty `<CVE/>` element, and saves a row under it.
- Advisory.ParseCveInfo: refuses a vulnerability with a None CVE id, as `Advisory.CveEntry` does.
- Advisory.CollectOk: counts a vulnerability with a None CVE id as failing, as `Advisory.CveEntry` does.
- Advisory.ParseCveInfoOk: counts a vulnerability with a None CVE id as failing, as `Advisory.CveEntry` does.
- Advisory.BranchStep: an arch name that is not a string is refused with TypeError for each package entry, after its CPE split and before its text is read, where the source hashes it (parse_advisory.py:255, :260); a branch without entries never hashes it. The source refuses a dict or list name the same way, but files packages under a None name.
- Advisory.PkgEntry: package text that is not a string is refused with TypeError; the source appends whatever the element held (None for an empty one). The stored package lists hold strings only.
- Advisory.ParseArchInfo: refuses the branches `Advisory.BranchStep` and `Advisory.PkgEntry` refuse.
- Advisory.ParseCvrfDictShape: holds for the advisories the model parses, which exclude a None CVE id, arch name or package text.
- TaskStatusOps.Advanced: the "add" step is the intended min(progress + 1, host_num). As written it raises TypeError (see "## Findings", `TaskStatusOps.AdvancedAsWritten`).
- TaskStatusOps.SetCveProgress: "add" succeeds with the intended step; as written it raises TypeError.
- TaskStatusOps.AddSteps: counts the intended "add" steps; as written each of them raises TypeError.
- Callbacks.CveStepApplied: the "add" progress step it applies is the intended `TaskStatusOps.Advanced`; as written, `set_cve_progress` raises TypeError at task.py:1400 after the status write, so the progress never moves (see "## Findings", `TaskStatusOps.AdvancedAsWritten`).
- Callbacks.CveStepTouchesOneUnit: the CVE's progress goes one host further by the intended "add" step; as written that step raises TypeError and the progress stays.
- Callbacks.CveCallback.SaveToDb: its store effect includes the intended "add" step of cve_fix.py:53; as written that call raises TypeError after the status write.
- Callbacks.CveCallback.OnOutcome: through `Callbacks.CveCallback.SaveToDb` it applies the intended "add" step; as written the step raises TypeError.
- TaskView.GetTaskCveStatus: no visible unit answers the intended NO_DATA with an empty result; as written it raises TypeError (see "## Findings", `TaskView.GetTaskCveStatusAsWritten`).
- `Cache.MakeCveInfo`: the source adds the "cve" key to the caller's first host dict for each host; the model builds a fresh host value, so that aliasing is not modelled.
- `Hotpatches.HotpatchUpdateInfo.StoreAdvisoryInfo`: the source raises its KeyError partway through the loop, after storing the earlier hotpatches. The model tests the condition first and then stores nothing.
- `Hotpatches.HotpatchUpdateInfo.InitHotpatchState`: the hotpatch states start from the values already held. A missing or empty `hot_patch_collection` is an empty list.
- `HotDisplay`: reads a hotpatch through the fields the table uses (`HpView`: source package, state, nevra, CVEs, severity).
- `TaskView`: the host name and address columns of a CVE's host list are not modelled; the rows carry the host id and status.
- `CveProxy`: rows that SQL joins return from tables the store does not hold (host rows of other users, advisory columns) are parameters.
- `apollo/database/proxy/host.py`, the marshmallow schemas and the declaration-only files are not part of this model.

## Where the code and its tests disagree

The model follows the code in each of these cases. Two more places where the code raises TypeError (apollo/database/proxy/task.py:1032 and :1400) are under "## Findings".

- apollo/database/proxy/task.py:1351-1353: `update_cve_status` returns NO_DATA for a missing (task, CVE, host) row. The repository's tests (apollo/tests/test_database/test_task.py:458-464) expect DATABASE_UPDATE_ERROR.
- apollo/database/proxy/task.py:192-195: only the "init" step returns NO_DATA for an unknown host. The tests (test_task.py:98) expect NO_DATA for "finish" as well.
- apollo/handler/task_handler/manager/cve_fix_manager.py:79-86: `post_handle` has no try/finally. A host without a callback result crashes on `info.get` over None, and `fault_handle` then never runs. `Managers.CveFixManager.PostHandle` returns that crash as a flag, with the store unchanged.

## Findings

| source | as written | input that shows it | evidently intended | confidence | as-written member | corrected member |
|---|---|---|---|---|---|---|
| apollo/database/proxy/cve.py:870-885 | `_get_related_cve` unzips the user's host CVEs, then the ones among them sharing a package, taking `[0]` of each, and removes the queried CVE from the second. It raises IndexError when either is empty, and KeyError when the queried CVE is not among the sharing ones. | A user has reviewed CVE-A, which no host of theirs reports any more, while a host reports CVE-B of the same package "p": the lookup for CVE-A raises KeyError | the other CVEs of the user's hosts that share a package, here {CVE-B} | not executed | CveProxy.RelatedCveAsWritten (CveProxy.RelatedCveAsWrittenKeyError) | CveProxy.RelatedCve (CveProxy.RelatedCveAgrees) |
| apollo/database/proxy/cve.py:1096-1111 | All documents of one advisory share one os list object. `_merge_cve_pkg_doc` extends it in place for each updated CVE, and the bulk update serializes the documents only after the loop, so every updated CVE is saved with the list after all merges. | CVE-A is stored with os X and CVE-B with os Y, and an advisory for os Z names both: CVE-A is saved with Z, X and Y | each CVE's document merged with its own stored document: CVE-A with Z and X | not executed | CveProxy.SavedDocsAsWritten (CveProxy.SavedDocsAsWrittenLeaks) | CveProxy.SavedDocs (CveProxy.SavedDocsLeakFree) |
| apollo/database/proxy/task.py:1399-1401 | `min(progress + 1, host_num)` over two column expressions asks an SQL comparison for its truth value, which raises TypeError, so set_cve_progress with "add" raises | any "add" step, such as the one each fixed host's callback makes | progress counted up by one, up to host_num | not executed | TaskStatusOps.AdvancedAsWritten (TaskStatusOps.AddRaisesAsWritten) | TaskStatusOps.Advanced (TaskStatusOps.AddSteps) |
| apollo/database/proxy/task.py:1029-1032 | the no-data return builds `{"result", {}}`, a set display holding a dict; hashing the dict raises TypeError | a status query for a task the user does not own | NO_DATA with an empty result | not executed | TaskView.GetTaskCveStatusAsWritten | TaskView.GetTaskCveStatus |
