/** The records the connector works on: the Toggl and Redmine API shapes it reads
    (only the fields it uses), the parameters of a sync run, and the per-entry
    outcome types `SyncSuccess` and `SyncError`. */
module ApiTypes {
  import opened Wrappers
  import opened Calendar

  /** A Toggl time entry: its id, the owning user, the free-text description and the
      interval it covers. */
  datatype TogglEntry = TogglEntry(
    id: nat,
    uid: nat,
    description: string,
    start: DateTime,
    end: DateTime)

  datatype RedmineUser = RedmineUser(id: nat, login: string)

  /** A Redmine issue with the project it belongs to. */
  datatype RedmineIssue = RedmineIssue(id: nat, projectId: nat)

  /** A Redmine time entry; `hours` in hundredths of an hour. */
  datatype RedmineTimeEntry = RedmineTimeEntry(
    id: nat,
    issueId: nat,
    projectId: nat,
    userId: nat,
    hours: int,
    comments: string,
    spentOn: Date)

  /** The body of a create or update request (`ParamsCreateOrUpdateTimeEntry`). */
  datatype TimeEntryParams = TimeEntryParams(
    issueId: nat,
    projectId: nat,
    hours: int,
    comments: string,
    spentOn: Date)

  /** The parameters of one user's run that the reconciliation reads. */
  datatype SyncParameters = SyncParameters(
    togglUserId: nat,
    redmineUsername: string,
    lastMonthSyncExpiryDays: nat,
    updateEntriesAsAdminUser: bool)

  datatype Action = Create | Update | Nop

  datatype SyncSuccess = SyncSuccess(
    togglEntry: TogglEntry,
    existingEntry: Option<RedmineTimeEntry>,
    newEntry: TimeEntryParams,
    redmineIssue: RedmineIssue,
    action: Action)

  /** The record an error is about: a Toggl entry, or a Redmine entry left without its Toggl source. */
  datatype ErrorEntry = TogglSource(togglEntry: TogglEntry) | RedmineSource(redmineEntry: RedmineTimeEntry)

  datatype SyncError = SyncError(togglUserId: nat, entry: ErrorEntry, errorMessage: string)

  /** `SyncSuccess | SyncError`. */
  datatype SyncOutcome = Synced(success: SyncSuccess) | Failed(error: SyncError)

  /** `isSyncError`: the outcome is an error. The source tells the two apart by the
      presence of `errorMessage`; here that is the union's own tag. */
  predicate IsSyncError(item: SyncOutcome)
  {
    item.Failed?
  }
}
