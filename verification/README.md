# Toggl → Redmine time-entry reconciliation, modelled in Dafny

The modelled program copies Toggl time entries into Redmine. A Toggl entry names its
Redmine issue with one `#<digits>` hashtag in its description. The Redmine entry written
for it carries the Toggl description followed by the correlation tag ` [<toggl id>]`.
One run for one user does three things:

- It resolves the configured Redmine login.
- It decides, for every Toggl entry, whether to create a Redmine entry, update the one
  carrying its tag, or leave Redmine alone. Every failure becomes a `SyncError` about
  that Toggl entry.
- It reports the user's tagged Redmine entries that no Toggl entry matches any more
  (orphans), then sorts all outcomes newest first.

Entries dated before the current month become frozen once the month is more than
`lastMonthSyncExpiryDays` days old. Frozen entries may no longer be created or changed.

Modules:

- `Helper` (`helper.dfy`): the hashtag extraction and the `old --> new` rendering.
  - `#<digits>` occurrences are found by a scan (`Hashtags`).
  - The scan is proved to agree with a position-by-position count (`HashtagCount`).
- `CorrelationKey`: the ` [<id>]` tag, how it is written and how it is matched.
- `SyncExpiry`: the edit freeze.
  - Proved against a linear day count (`DayNumber`, `EpochMillis`) in `Calendar`.
  - `Calendar` also fixes the rounding of durations to hundredths of an hour and the
    string forms of dates and hours.
- `EntryDecision`: the per-entry decision and its procedure.
  - `Decide` is a pure function. Once the issue is resolved it continues in
    `DecideForIssue`, which chooses between `DecideCreate` and `DecideExisting`.
  - `SyncTogglEntry` is the step-by-step procedure. It continues in `SyncForIssue`
    once the issue is resolved. It sends requests through a `RedmineServer` object
    that logs every request, and it is proved to send exactly the decision's
    requests and to return the decision's outcome.
- `Reconciliation`: user lookups, orphan detection, sorting, and the run.
  - `Reconcile` is the specification of a run.
  - `SyncTogglEntries` is the procedure, with its loop over the Toggl entries in
    `SyncEach`.
- `Seqs`, `Decimal`, `Sorting`, `Wrappers`, `ApiTypes`: shared pieces.
  - `Seqs`: filter, single, prefix and suffix.
  - `Decimal`: decimal digit strings.
  - `Sorting`: a stable descending sort.
  - `Wrappers`: `Option` and `Result`.
  - `ApiTypes`: the record shapes of the Toggl and Redmine APIs.

Inputs and outputs:

- The Redmine users, issues and time entries a run fetches are inputs.
- The current time `now` is an input.
- Redmine's answer to each create or update request is an input: `faults[i]` for the
  request of Toggl entry `i`, where `None` means the request was accepted.
- The requests sent to Redmine are the run's output log.

Where the code and its comments disagree, the model follows the code:

- The orphan filter at `src/redmine-connector.ts:109` says it keeps comments "ending with"
  `[number]`. Its regular expression is not anchored, so it keeps any comment that
  contains `[digits]` anywhere (`ContainsBracketedNumber`).
- Only matching the tag at the END of a comment (`MatchesBySuffixKey`) ties a Redmine
  entry to a Toggl entry.

## Model

| member | source | states |
|---|---|---|
| Helper.ExtractSingleHashtagNumber | src/helper.ts:11-16 | A number is returned exactly when the text holds one `#<digits>` occurrence |
| Helper.ExtractSomeIff | src/helper.ts:11-16 | The result is `Some(n)` iff exactly one position starts `#<digit>`, and `n` is the decimal value of the digit run after it |
| Helper.ExtractNoneWithoutHashtag | src/helper.ts:12-14 | With no `#` followed by a digit (a bare `#` does not count), the result is nothing |
| Helper.ExtractNoneWithTwoHashtags | src/helper.ts:12-14 | Two distinct occurrences give nothing (`"Fixes #1 and #2"`) |
| Helper.ExtractIgnoresSurroundingText | src/helper.ts:12 | Text placed in front that holds no `#`, and text placed behind that holds neither `#` nor digits, do not change the result |
| Helper.ExtractFromReference | src/helper.ts:12-15 | A single reference `#<zeros><n>` in plain text yields `n`; leading zeros are dropped (`#007` gives 7) |
| Helper.OneHashtagIff | src/helper.ts:12-14 | The count is one iff exactly one position starts an occurrence |
| Helper.CombineWithArrowIfNotEqual | src/helper.ts:18-20 | The result is the before value iff the two string forms are equal; otherwise it starts with before, ends with after, differs from after, and has ` --> ` between them |
| Helper.CombineReflexive | src/helper.ts:19 | Combining a value with itself gives the value |
| Helper.CombineSplits | src/helper.ts:19 | The arrow form splits back into the before and the after value |
| ApiTypes.IsSyncError | src/redmine-connector.ts:43-45 | Defines `isSyncError`; the `errorMessage !== undefined` test becomes the union's `Failed` tag. `Timestamp` branches on it as the `sortBy` comparator does |
| EntryDecision.EntryOutcomeIsErrorIff | src/redmine-connector.ts:43-45 | An entry's outcome is a `SyncError` iff the decision refused the entry or Redmine refused its request; an error carries the Toggl user id and the entry, a success is the decision's own |
| CorrelationKey.DescriptionWithKey | src/redmine-connector.ts:51-53 | The comment starts with the description, then a space, and ends with `[<id>]` |
| CorrelationKey.MatchesBySuffixKey | src/redmine-connector.ts:47-49 | Defines `matchesBySuffixKey`: the comment ends with `[<id>]`. `KeyedCommentMatches` and `TagsSuffixUnique` state what it means for keyed comments |
| CorrelationKey.TagsSuffixUnique | src/redmine-connector.ts:47-49 | Two ids whose tags both end one comment are equal |
| CorrelationKey.MatchesAtMostOneId | src/redmine-connector.ts:47-49 | A Redmine entry suffix-matches Toggl entries of at most one id |
| CorrelationKey.KeyedCommentMatches | src/redmine-connector.ts:47-53 | A comment written from a Toggl entry matches exactly the Toggl entries with that entry's id |
| CorrelationKey.DescriptionRecoverable | src/redmine-connector.ts:51-53 | The description can be read back from the written comment |
| CorrelationKey.MatchingCommentIsBracketed | src/redmine-connector.ts:47-49 | A comment that matches a Toggl entry contains a `[digits]` token, so the orphan search sees it |
| Calendar.DateTimeBeforeIffEarlier | src/redmine-connector.ts:63-64 | The date-time comparisons used by the freeze agree with the order of the instants |
| Calendar.PlusDaysCounts | src/redmine-connector.ts:64 | Adding `n` calendar days moves the day count by `n` and gives a valid date |
| Calendar.RoundToHundredths | src/redmine-connector.ts:141-145 | The hours are the nearest hundredth of an hour to the duration, with halves rounded away from zero |
| Calendar.RoundingIsSymmetric | src/redmine-connector.ts:141-145 | A negative duration rounds to the mirror of the positive one |
| Calendar.FormatDateInjective | src/redmine-connector.ts:140 | Distinct dates render as distinct `yyyy-MM-dd` strings |
| Calendar.HoursToStringInjective | src/redmine-connector.ts:189 | Distinct hour counts render as distinct strings |
| SyncExpiry.IsSpentOnViolatingLastMonthSyncExpiryDays | src/redmine-connector.ts:59-67 | Defines the freeze test on luxon-style dates with `now` passed in; `FrozenIffDayCount` states it on the day count |
| SyncExpiry.FrozenIffDayCount | src/redmine-connector.ts:59-67 | Frozen iff `now` is strictly after midnight `N` days past the first of the month, and `spentOn` is a day before the first of the month |
| SyncExpiry.CurrentMonthNeverFrozen | src/redmine-connector.ts:64 | No date on or after the first of the current month is frozen |
| SyncExpiry.NothingFrozenInGracePeriod | src/redmine-connector.ts:64 | Nothing is frozen while `now` is at most `N` days past the start of the month |
| SyncExpiry.NothingFrozenInFirstDays | src/redmine-connector.ts:64 | On day `d` of the month with `d <= N`, nothing is frozen |
| SyncExpiry.EarlierMonthFrozenAfterGrace | src/redmine-connector.ts:64 | On day `d > N + 1`, every date of an earlier month is frozen |
| SyncExpiry.FreezeIsMonotone | src/redmine-connector.ts:59-67 | Within a month, once a date is frozen it stays frozen |
| EntryDecision.RedmineServer.CreateTimeEntry | src/redmine-connector.ts:293-307 | The create request is logged, and a refused request yields "Failed to create redmine time entry: " followed by the error |
| EntryDecision.RedmineServer.UpdateTimeEntry | src/redmine-connector.ts:309-323 | The update request for the entry id is logged, and a refused request yields "Failed to update redmine time entry: " followed by the error |
| EntryDecision.SyncTogglEntry | src/redmine-connector.ts:123-138 | The procedure returns the outcome of `Decide` and sends exactly that decision's requests; a missing hashtag or issue sends nothing |
| EntryDecision.SyncForIssue | src/redmine-connector.ts:139-227 | Once the issue is resolved, the procedure returns the outcome of the decision for that issue and sends exactly its requests |
| EntryDecision.FindIssue | src/redmine-connector.ts:135-138 | A found issue is one of the fetched issues and has the referenced id |
| EntryDecision.FindIssueIff | src/redmine-connector.ts:135-138 | The issue is found iff exactly one fetched issue has the id, and it is that issue |
| EntryDecision.MatchingEntries | src/redmine-connector.ts:147 | The existing entries are exactly the given Redmine entries that suffix-match the Toggl entry |
| EntryDecision.Decide | src/redmine-connector.ts:123-227 | Defines what `syncTogglEntry` does with one entry: refuse it with a message, leave Redmine as it is, or send one request. The path lemmas below state each branch |
| EntryDecision.MissingHashtagRejected | src/redmine-connector.ts:132-133 | Without exactly one hashtag, the result is the error "Missing issue hashtag" about the Toggl entry, and nothing is sent |
| EntryDecision.UnresolvedIssueRejected | src/redmine-connector.ts:135-138 | An issue id carried by no fetched issue, or by several, gives "No matching Redmine issue #n found", and nothing is sent |
| EntryDecision.Payload | src/redmine-connector.ts:140-156 | Defines the create or update body; `PayloadShape` states its fields |
| EntryDecision.PayloadShape | src/redmine-connector.ts:140-156 | Whatever is sent or reported carries the hashtag's issue and its project, the description plus ` [id]`, the start date, and the rounded hours; the comment matches the Toggl entry again |
| EntryDecision.CreatePath | src/redmine-connector.ts:158-171 | With no matching entry, a frozen date is refused with nothing sent; otherwise exactly one create is sent as the impersonated user, and the result is `create` with no existing entry |
| EntryDecision.AmbiguousMatchRejected | src/redmine-connector.ts:174-176 | Two or more matching entries give "Multiple matches found for toggl entry <id>, user <login>", and nothing is sent |
| EntryDecision.NopPath | src/redmine-connector.ts:178-215 | A single matching entry equal to the payload on the five fields gives `nop` with the existing entry, the payload and the issue, whatever the date, and nothing is sent |
| EntryDecision.UpdatePath | src/redmine-connector.ts:183-206 | A differing single match with either date frozen gives the expiry error with the diff, and nothing is sent; otherwise one update of that entry id is sent, by the admin client iff `updateEntriesAsAdminUser`, and the result is `update` |
| EntryDecision.ErrorsAreAboutTheEntry | src/redmine-connector.ts:220-225 | Every error carries the Toggl entry and the Toggl user id; a refusal sends nothing; an outcome is an error iff the decision refused or Redmine refused the request; at most one request is sent |
| EntryDecision.FrozenDatesNeverWritten | src/redmine-connector.ts:158-193 | No request writes a frozen date, and an update never targets an existing entry whose date is frozen |
| EntryDecision.UpdateDiff | src/redmine-connector.ts:187-190 | Defines the attempted-update text of the expiry error; `DiffShowsChangedFields` and `ProjectChangeNotShownInDiff` state what it shows |
| EntryDecision.DiffShowsChangedFields | src/redmine-connector.ts:187-190 | Each of the four diff parts shows an arrow exactly when its field changes |
| EntryDecision.ProjectChangeNotShownInDiff | src/redmine-connector.ts:178-190 | A change of project alone counts as a difference, yet the diff shows no arrow |
| EntryDecision.ReprocessingAfterWriteIsNop | src/redmine-connector.ts:158-215 | Processing a Toggl entry again, at any later time, against the entries produced by its own accepted create or update gives `nop` and sends nothing |
| EntryDecision.UnchangedIsStable | src/redmine-connector.ts:209-215 | A `nop` decision is the same at any later time |
| Reconciliation.GetRedmineUserById | src/redmine-connector.ts:55-57 | The result is a fetched user with the id, or the error "User with id <id> not found among queried redmine users" |
| Reconciliation.FindUserByLogin | src/redmine-connector.ts:80 | A found user is one of the fetched users and has the configured login; otherwise the error is "User <login> not found in redmine" |
| Reconciliation.GetRedmineUserByIdIff | src/redmine-connector.ts:55-57 | The lookup succeeds iff exactly one user has the id, and yields that user |
| Reconciliation.FindUserByLoginFails | src/redmine-connector.ts:80 | The login lookup fails iff no user, or more than one, has the login |
| Reconciliation.CurrentUserEntries | src/redmine-connector.ts:104 | The current-user filter succeeds iff every entry's user resolves. On success it keeps exactly the entries of the configured login, in order; otherwise it fails with the error of the first unresolvable entry |
| Reconciliation.ReferencedIssueIds | src/redmine-connector.ts:70-72 | Defines the issue ids queried; `ReferencedIssueIdsIff` states which they are |
| Reconciliation.ReferencedIssueIdsIff | src/redmine-connector.ts:70-72 | The queried issue ids are exactly the numbers extracted from the descriptions, each listed once |
| Reconciliation.DetectOrphans | src/redmine-connector.ts:106-115 | Every reported orphan is a `SyncError`; `OrphanSearchFailsIff`, `OrphansAreRedmineErrors` and `OrphanIff` state the rest |
| Reconciliation.OrphanSearchFailsIff | src/redmine-connector.ts:106-110 | The orphan search fails iff some tagged entry's user cannot be resolved |
| Reconciliation.OrphansAreRedmineErrors | src/redmine-connector.ts:111-115 | Every orphan is an error with the orphan message about one of the user's Redmine entries that no Toggl entry matches |
| Reconciliation.OrphanIff | src/redmine-connector.ts:106-115 | An entry is reported iff it belongs to the configured user, contains `[digits]`, and no Toggl entry suffix-matches it |
| Reconciliation.UnmatchedEntryIsOrphan | src/redmine-connector.ts:108-110 | A tagged entry of the configured user that no Toggl entry suffix-matches is reported |
| Reconciliation.SyncedEntryIsNoOrphan | src/redmine-connector.ts:106-111 | An entry written from a Toggl entry of the run is never an orphan |
| Reconciliation.Timestamp | src/redmine-connector.ts:117-118 | Defines the sort key: through `isSyncError`, the Toggl start for successes and for errors about a Toggl entry, the midnight of `spent_on` for orphans |
| Reconciliation.SortByTimestampDesc | src/redmine-connector.ts:116-120 | Defines the sort; `SortByTimestampDescSpec` states order, permutation and stability |
| Reconciliation.SortByTimestampDescSpec | src/redmine-connector.ts:116-120 | The sort keeps the same outcomes, orders them newest first, and keeps equal timestamps in their original order |
| Reconciliation.Outcomes | src/redmine-connector.ts:95-105 | There is one outcome per Toggl entry, in order, each the outcome of that entry's own decision |
| Reconciliation.RunStep | src/redmine-connector.ts:98-104 | Processing one more Toggl entry appends its outcome and its requests after those of the entries before it |
| Reconciliation.SyncEach | src/redmine-connector.ts:97-105 | Processing the Toggl entries one after another returns their outcomes and sends their requests in order |
| Reconciliation.SyncTogglEntries | src/redmine-connector.ts:69-121 | The procedure returns the result of `Reconcile` and sends exactly its requests |
| Reconciliation.Reconcile | src/redmine-connector.ts:69-121 | Defines a run: its result and the requests it sends. `ReconcileShape`, `ReconcileAbortsBeforeWriting`, `FailedRunSendsNothing` and `SyncTogglEntries` state what it is |
| Reconciliation.ReconcileShape | src/redmine-connector.ts:95-120 | A successful run is a permutation of the Toggl outcomes plus the orphans, sorted newest first; its requests are the decisions' requests |
| Reconciliation.ReconcileAbortsBeforeWriting | src/redmine-connector.ts:80-104 | A failed login lookup, or (with Toggl entries present) an unresolvable entry user, fails the run before anything is sent |
| Reconciliation.OrphanFailureSendsNothing | src/redmine-connector.ts:104-110 | A failed orphan search fails the run and nothing was sent: the tagged entry whose user is unknown has already failed the user filter of every Toggl entry; with no Toggl entries the run fails with the orphan search's own message |
| Reconciliation.FailedRunSendsNothing | src/redmine-connector.ts:69-121 | Every failed run fails before any create or update is sent |
| Reconciliation.EmptyRunChecksOnlyTaggedUsers | src/redmine-connector.ts:104-110 | With no Toggl entries, only tagged entries' users must resolve, and nothing is sent |

## Left out

- Fetching:
  - Paging through Redmine users, issues and time entries (`src/redmine-connector.ts:229-291`)
    and the Toggl client. The fetched sequences are inputs.
  - The `from`/`to` range and the user id only shape those queries, so they are not
    part of `SyncParameters` here.
  - `FindUserByLogin` contributes only its failure. The user it finds only feeds the
    time-entry query.
- HTTP:
  - Requests and Redmine's answers are not modelled. A request is an entry in the
    `RedmineServer` log, and the answer is a given optional error text (the JSON of
    the error object).
  - The effect of an accepted request on Redmine appears only in the idempotence lemma
    (`AppliedWrite`). There, a create gets an id chosen by Redmine, and ids are
    assumed unique.
- Concurrency:
  - `Promise.all` and the concurrent per-user loop in `src/main.ts`.
  - Toggl entries are processed one after another. Each outcome depends only on its
    own entry, so the order of processing does not change outcomes.
  - The current-user filter at `src/redmine-connector.ts:104` runs inside every
    per-entry callback. The run fails, before any request, when there is a Toggl entry
    and that filter throws.
- Time:
  - luxon parsing, local time zones and daylight-saving shifts. A date-time is a local
    calendar date plus milliseconds since midnight, and each day is 86 400 000 ms long.
  - `DateTime.local()` is read twice in the source. The model reads one `now` for both.
  - Calendar validity of dates is assumed, not checked: the model does not parse.
- SyncExpiry.IsSpentOnViolatingLastMonthSyncExpiryDays: the grace period is a whole
  number of days, zero or more (`nat`), and `PlusDays` only moves forward. The source's
  setting is any JavaScript number, so a negative value (a deadline in the previous
  month) or a fractional one (a deadline inside a day) is not modelled.
- Calendar.RoundToHundredths:
  - Models `Number(x.toFixed(2))` on exact integers.
  - JavaScript rounds the nearest binary double, so an exact tie may round differently.
  - Hours are compared as whole hundredths, not as floating-point numbers.
- Calendar.HoursToString: renders an hour count as `String` would. Exponent notation
  for very large or very small numbers is not modelled.
- Helper.ExtractSingleHashtagNumber:
  - `parseInt` of a long digit run loses precision beyond 2^53. The model returns the
    exact value.
  - The pattern's case-insensitive flag has no effect on `#[0-9]+` and is not modelled.
- Helper.ExtractIgnoresSurroundingText: stated only for text placed around the existing
  text. Text inserted inside an occurrence (between `#` and its digits) changes the
  result, and text placed behind must hold no digits because it would extend a trailing
  run.
- Comparisons of `spent_on`:
  - `spent_on` strings are compared as dates.
  - This equals the source's string comparison when Redmine reports `spent_on` in the
    canonical `yyyy-MM-dd` form (`Calendar.FormatDateInjective`).
- Error values:
  - The source stores the thrown value itself as `errorMessage`: an `Error` object or
    a string. The model stores its message text.
  - The unreachable throw at `src/redmine-connector.ts:218` is not modelled.
- Helper.isTogglEntry is called by the sort but is not part of this model. An error's
  entry is a tagged union (`TogglSource`, `RedmineSource`) instead.
- The `sortBy` ordering relies on a stable sort (`Array.prototype.sort` is stable since
  ES2019). Timestamps are assumed to be numbers, never `NaN`.
- `src/main.ts`:
  - The check that every Toggl entry belongs to the processed user (`src/main.ts:38`)
    is not modelled. The `uid` field is carried but not used.
  - The call at `src/main.ts:43-52` passes neither `lastMonthSyncExpiryDays` nor
    `updateEntriesAsAdminUser`. The model takes both as given values.
  - Scheduling, reporting, e-mail and logging (`src/report.ts`, `src/logger.ts`) and
    `Helper.timeout` are I/O.
