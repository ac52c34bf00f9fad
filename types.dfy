/**
 * Vocabulary shared by the task subsystem: identifiers, the status columns of
 * the association tables, the runner's step status and the proxies' status codes.
 * The source keeps all of these as strings; the model gives each a closed type.
 */
module Types {
  type TaskId = string
  type CveId = string
  type HostId = string
  type UserName = string

  /** Status of one (task, cve, host) unit: "unfixed", "fixed", "running", "unknown". */
  datatype CveStatus = Unfixed | Fixed | Running | Unknown

  /** Status of one (task, host) unit of a repo task: "unset", "set", "running", "unknown". */
  datatype RepoStatus = Unset | Set | RepoRunning | RepoUnknown

  /** The aggregated status of a host or a CVE: "succeed", "fail", "running", "unknown". */
  datatype Summary = Succeed | Fail | SummaryRunning | SummaryUnknown

  /** What the runner reports for one step of one host. */
  datatype RunnerStatus = RunnerSucceed | RunnerFail | RunnerUnreachable

  /** The status codes returned by the proxies. */
  datatype Code =
    | Success
    | NoData
    | ServerError
    | DatabaseUpdateError
    | DatabaseInsertError
    | DatabaseDeleteError
    | DatabaseQueryError
    | PartialSucceed
    | ParamError

  /**
   * A Python exception that escapes a proxy where a status code was meant: the
   * TypeError of an operand of the wrong kind.
   */
  datatype Raised = TypeError

  /** A task type string: "cve", "repo", or anything else a caller passes. */
  datatype TaskType = CveType | RepoType | OtherType(name: string)

  /** The `method` argument of set_cve_progress. */
  datatype ProgressMethod = Add | Fill | Zero | OtherMethod(name: string)
}
