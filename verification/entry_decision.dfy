/** `syncTogglEntry`: what to do with one Toggl entry. The decision is a pure
    function of the run parameters, the current time, the entry, the fetched
    issues and the current user's Redmine time entries; the procedure that carries
    it out sends at most one create or update request to Redmine and turns every
    fault into a `SyncError` about the Toggl entry. */
module EntryDecision {
  import opened Wrappers
  import opened Seqs
  import opened Decimal
  import opened Calendar
  import opened Helper
  import opened ApiTypes
  import opened CorrelationKey
  import opened SyncExpiry

  // ---------------------------------------------------------------------------
  // Requests sent to Redmine
  // ---------------------------------------------------------------------------

  /** Which client sends a request: the administrator's, or the one impersonating a login. */
  datatype Identity = Admin | Impersonating(login: string)

  datatype WriteRequest =
    | CreateRequest(sender: Identity, params: TimeEntryParams)
    | UpdateRequest(sender: Identity, entryId: nat, params: TimeEntryParams)

  /** The error a request ends with when Redmine answers it with the error `detail`
      (the JSON text of the error object). */
  function RequestFailure(request: WriteRequest, detail: string): (r: string)
    ensures request.CreateRequest? ==> StartsWith(r, "Failed to create redmine time entry: ")
    ensures request.UpdateRequest? ==> StartsWith(r, "Failed to update redmine time entry: ")
    ensures EndsWith(r, detail)
  {
    match request
    case CreateRequest(_, _) => "Failed to create redmine time entry: " + detail
    case UpdateRequest(_, _, _) => "Failed to update redmine time entry: " + detail
  }

  /** The requests sent to Redmine, in order. A request is logged when it is sent,
      whether or not Redmine accepts it; `fault` is Redmine's answer: none for
      success, the error detail otherwise. */
  class RedmineServer {
    var requests: seq<WriteRequest>

    constructor()
      ensures requests == []
    {
      requests := [];
    }

    /** `createRedmineTimeEntry`. */
    method CreateTimeEntry(sender: Identity, params: TimeEntryParams, fault: Option<string>) returns (err: Option<string>)
      modifies this
      ensures requests == old(requests) + [CreateRequest(sender, params)]
      ensures err.Some? <==> fault.Some?
      ensures fault.Some? ==> err.value == RequestFailure(CreateRequest(sender, params), fault.value)
    {
      requests := requests + [CreateRequest(sender, params)];
      if fault.Some? {
        err := Some("Failed to create redmine time entry: " + fault.value);
      } else {
        err := None;
      }
    }

    /** `updateRedmineTimeEntry`. */
    method UpdateTimeEntry(sender: Identity, entryId: nat, params: TimeEntryParams, fault: Option<string>) returns (err: Option<string>)
      modifies this
      ensures requests == old(requests) + [UpdateRequest(sender, entryId, params)]
      ensures err.Some? <==> fault.Some?
      ensures fault.Some? ==> err.value == RequestFailure(UpdateRequest(sender, entryId, params), fault.value)
    {
      requests := requests + [UpdateRequest(sender, entryId, params)];
      if fault.Some? {
        err := Some("Failed to update redmine time entry: " + fault.value);
      } else {
        err := None;
      }
    }
  }

  // ---------------------------------------------------------------------------
  // The steps of the decision
  // ---------------------------------------------------------------------------

  const MissingHashtagMessage: string := "Missing issue hashtag"
  const CreateExpiredMessage: string := "Last month sync period expired, skipped creating entry."

  function NoMatchingIssueMessage(issueId: nat): string
  {
    "No matching Redmine issue #" + NatToString(issueId) + " found"
  }

  function MultipleMatchesMessage(togglId: nat, redmineUsername: string): string
  {
    "Multiple matches found for toggl entry " + NatToString(togglId) + ", user " + redmineUsername
  }

  function UpdateExpiredMessage(diff: string): string
  {
    "Last month sync period expired, skipped updating entry, attempted update: " + diff + "."
  }

  function HasIssueId(id: nat): RedmineIssue -> bool
  {
    (x: RedmineIssue) => x.id == id
  }

  /** The fetched issue with the referenced id, when there is exactly one. */
  function FindIssue(issues: seq<RedmineIssue>, issueId: nat): (r: Option<RedmineIssue>)
    ensures r.Some? ==> r.value in issues && r.value.id == issueId
  {
    Single(Filter(issues, HasIssueId(issueId)))
  }

  function MatchesKeyOf(togglEntry: TogglEntry): RedmineTimeEntry -> bool
  {
    (x: RedmineTimeEntry) => MatchesBySuffixKey(x, togglEntry)
  }

  /** The Redmine entries carrying the Toggl entry's correlation tag. */
  function MatchingEntries(entries: seq<RedmineTimeEntry>, togglEntry: TogglEntry): (r: seq<RedmineTimeEntry>)
    ensures forall x :: x in r <==> x in entries && MatchesBySuffixKey(x, togglEntry)
  {
    Filter(entries, MatchesKeyOf(togglEntry))
  }

  /** The create or update body for a Toggl entry booked on `issue`. */
  function Payload(togglEntry: TogglEntry, issue: RedmineIssue): TimeEntryParams
  {
    TimeEntryParams(
      issue.id,
      issue.projectId,
      HoursBetween(togglEntry.start, togglEntry.end),
      DescriptionWithKey(togglEntry),
      togglEntry.start.date)
  }

  /** The five fields compared before an update. */
  predicate SameAsPayload(existing: RedmineTimeEntry, payload: TimeEntryParams)
  {
    existing.issueId == payload.issueId &&
    existing.projectId == payload.projectId &&
    existing.hours == payload.hours &&
    existing.comments == payload.comments &&
    existing.spentOn == payload.spentOn
  }

  /** The attempted update shown in the expiry error: spent_on, issue id, hours and
      comments, each as `before --> after` when it changes. */
  function UpdateDiff(existing: RedmineTimeEntry, payload: TimeEntryParams): string
  {
    CombineWithArrowIfNotEqual(FormatDate(existing.spentOn), FormatDate(payload.spentOn)) + ", " +
    CombineWithArrowIfNotEqual(NatToString(existing.issueId), NatToString(payload.issueId)) + ", " +
    CombineWithArrowIfNotEqual(HoursToString(existing.hours), HoursToString(payload.hours)) + ", " +
    CombineWithArrowIfNotEqual(existing.comments, payload.comments)
  }

  /** What `syncTogglEntry` does with one Toggl entry: refuse it with a message, leave
      Redmine as it is, or send one request. */
  datatype Decision =
    | Rejected(message: string)
    | Unchanged(success: SyncSuccess)
    | Write(request: WriteRequest, success: SyncSuccess)

  function Decide(params: SyncParameters, now: DateTime, togglEntry: TogglEntry,
                  issues: seq<RedmineIssue>, entries: seq<RedmineTimeEntry>): Decision
  {
    match ExtractSingleHashtagNumber(togglEntry.description)
    case None => Rejected(MissingHashtagMessage)
    case Some(issueId) =>
      match FindIssue(issues, issueId)
      case None => Rejected(NoMatchingIssueMessage(issueId))
      case Some(issue) => DecideForIssue(params, now, togglEntry, issue, entries)
  }

  /** The decision once the issue is resolved: it depends on how many Redmine entries
      carry the Toggl entry's tag. */
  function DecideForIssue(params: SyncParameters, now: DateTime, togglEntry: TogglEntry,
                          issue: RedmineIssue, entries: seq<RedmineTimeEntry>): Decision
  {
    var existing := MatchingEntries(entries, togglEntry);
    if |existing| == 0 then DecideCreate(params, now, togglEntry, issue)
    else if |existing| != 1 then Rejected(MultipleMatchesMessage(togglEntry.id, params.redmineUsername))
    else DecideExisting(params, now, togglEntry, issue, existing[0])
  }

  /** No entry carries the tag: create one, unless its date is frozen. */
  function DecideCreate(params: SyncParameters, now: DateTime, togglEntry: TogglEntry, issue: RedmineIssue): Decision
  {
    var payload := Payload(togglEntry, issue);
    if IsSpentOnViolatingLastMonthSyncExpiryDays(payload.spentOn, params.lastMonthSyncExpiryDays, now) then
      Rejected(CreateExpiredMessage)
    else
      Write(CreateRequest(Impersonating(params.redmineUsername), payload),
            SyncSuccess(togglEntry, None, payload, issue, Create))
  }

  /** One entry carries the tag: leave it when it equals the payload, otherwise update
      it, unless either date is frozen. */
  function DecideExisting(params: SyncParameters, now: DateTime, togglEntry: TogglEntry, issue: RedmineIssue,
                          entry: RedmineTimeEntry): Decision
  {
    var payload := Payload(togglEntry, issue);
    var days := params.lastMonthSyncExpiryDays;
    if !SameAsPayload(entry, payload) then
      if IsSpentOnViolatingLastMonthSyncExpiryDays(entry.spentOn, days, now) ||
         IsSpentOnViolatingLastMonthSyncExpiryDays(payload.spentOn, days, now) then
        Rejected(UpdateExpiredMessage(UpdateDiff(entry, payload)))
      else
        var sender := if params.updateEntriesAsAdminUser then Admin else Impersonating(params.redmineUsername);
        Write(UpdateRequest(sender, entry.id, payload),
              SyncSuccess(togglEntry, Some(entry), payload, issue, Update))
    else
      Unchanged(SyncSuccess(togglEntry, Some(entry), payload, issue, Nop))
  }

  /** The requests a decision sends. */
  function DecisionWrites(decision: Decision): seq<WriteRequest>
  {
    if decision.Write? then [decision.request] else []
  }

  function EntryError(params: SyncParameters, togglEntry: TogglEntry, message: string): SyncOutcome
  {
    Failed(SyncError(params.togglUserId, TogglSource(togglEntry), message))
  }

  /** The value `syncTogglEntry` resolves to, given Redmine's answer `fault` to the
      request the decision sends (ignored when it sends none). */
  function EntryOutcome(params: SyncParameters, togglEntry: TogglEntry, decision: Decision, fault: Option<string>): SyncOutcome
  {
    match decision
    case Rejected(message) => EntryError(params, togglEntry, message)
    case Unchanged(success) => Synced(success)
    case Write(request, success) =>
      if fault.Some? then EntryError(params, togglEntry, RequestFailure(request, fault.value))
      else Synced(success)
  }

  /** `isSyncError` on an entry's outcome: it is an error exactly when the decision
      refused the entry or Redmine refused its request. An error is about the Toggl
      entry; a success is the decision's own. */
  lemma EntryOutcomeIsErrorIff(params: SyncParameters, togglEntry: TogglEntry, decision: Decision, fault: Option<string>)
    ensures var o := EntryOutcome(params, togglEntry, decision, fault);
            (IsSyncError(o) <==> decision.Rejected? || (decision.Write? && fault.Some?)) &&
            (IsSyncError(o) ==> o.error.togglUserId == params.togglUserId && o.error.entry == TogglSource(togglEntry)) &&
            (!IsSyncError(o) ==> !decision.Rejected? && o.success == decision.success)
  {
  }

  // ---------------------------------------------------------------------------
  // The procedure
  // ---------------------------------------------------------------------------

  /** `syncTogglEntry`, step by step: it sends exactly the requests of the decision
      and resolves to the outcome of the decision. */
  method SyncTogglEntry(server: RedmineServer, params: SyncParameters, now: DateTime, togglEntry: TogglEntry,
                        issues: seq<RedmineIssue>, entries: seq<RedmineTimeEntry>, fault: Option<string>)
    returns (r: SyncOutcome)
    modifies server
    ensures r == EntryOutcome(params, togglEntry, Decide(params, now, togglEntry, issues, entries), fault)
    ensures server.requests == old(server.requests) + DecisionWrites(Decide(params, now, togglEntry, issues, entries))
  {
    var issueId := ExtractSingleHashtagNumber(togglEntry.description);
    if issueId.None? {
      return EntryError(params, togglEntry, MissingHashtagMessage);
    }
    var matchingIssue := FindIssue(issues, issueId.value);
    if matchingIssue.None? {
      return EntryError(params, togglEntry, NoMatchingIssueMessage(issueId.value));
    }
    r := SyncForIssue(server, params, now, togglEntry, matchingIssue.value, entries, fault);
  }

  /** The rest of `syncTogglEntry` once the issue is resolved. */
  method SyncForIssue(server: RedmineServer, params: SyncParameters, now: DateTime, togglEntry: TogglEntry,
                      issue: RedmineIssue, entries: seq<RedmineTimeEntry>, fault: Option<string>)
    returns (r: SyncOutcome)
    modifies server
    ensures r == EntryOutcome(params, togglEntry, DecideForIssue(params, now, togglEntry, issue, entries), fault)
    ensures server.requests == old(server.requests) + DecisionWrites(DecideForIssue(params, now, togglEntry, issue, entries))
  {
    var days := params.lastMonthSyncExpiryDays;
    var payload := Payload(togglEntry, issue);
    var existing := MatchingEntries(entries, togglEntry);

    if |existing| == 0 {
      if IsSpentOnViolatingLastMonthSyncExpiryDays(payload.spentOn, days, now) {
        return EntryError(params, togglEntry, CreateExpiredMessage);
      }
      var err := server.CreateTimeEntry(Impersonating(params.redmineUsername), payload, fault);
      if err.Some? {
        return EntryError(params, togglEntry, err.value);
      }
      return Synced(SyncSuccess(togglEntry, None, payload, issue, Create));
    }

    if |existing| != 1 {
      return EntryError(params, togglEntry, MultipleMatchesMessage(togglEntry.id, params.redmineUsername));
    }
    var entry := existing[0];
    if !SameAsPayload(entry, payload) {
      if IsSpentOnViolatingLastMonthSyncExpiryDays(entry.spentOn, days, now) ||
         IsSpentOnViolatingLastMonthSyncExpiryDays(payload.spentOn, days, now) {
        return EntryError(params, togglEntry, UpdateExpiredMessage(UpdateDiff(entry, payload)));
      }
      var sender := if params.updateEntriesAsAdminUser then Admin else Impersonating(params.redmineUsername);
      var err := server.UpdateTimeEntry(sender, entry.id, payload, fault);
      if err.Some? {
        return EntryError(params, togglEntry, err.value);
      }
      return Synced(SyncSuccess(togglEntry, Some(entry), payload, issue, Update));
    }
    return Synced(SyncSuccess(togglEntry, Some(entry), payload, issue, Nop));
  }

  // ---------------------------------------------------------------------------
  // Resolving the issue and the existing entry
  // ---------------------------------------------------------------------------

  /** The issue is found exactly when one fetched issue has the id, and it is that one. */
  lemma FindIssueIff(issues: seq<RedmineIssue>, issueId: nat, i: int)
    ensures FindIssue(issues, issueId).Some? <==> exists k :: OnlyAt(issues, HasIssueId(issueId), k)
    ensures OnlyAt(issues, HasIssueId(issueId), i) ==> FindIssue(issues, issueId) == Some(issues[i])
  {
    FilterSingleIff(issues, HasIssueId(issueId));
  }

  /** The existing entry is the one at `k` when only that entry carries the tag. */
  lemma MatchedAt(entries: seq<RedmineTimeEntry>, togglEntry: TogglEntry, k: int)
    requires OnlyAt(entries, MatchesKeyOf(togglEntry), k)
    ensures MatchingEntries(entries, togglEntry) == [entries[k]]
  {
    FilterSingleIff(entries, MatchesKeyOf(togglEntry));
  }

  /** The entry carries a hashtag referring to issue `n` and exactly issue `i` has that id. */
  ghost predicate Resolved(togglEntry: TogglEntry, issues: seq<RedmineIssue>, n: nat, i: int)
  {
    ExtractSingleHashtagNumber(togglEntry.description) == Some(n) && OnlyAt(issues, HasIssueId(n), i)
  }

  // ---------------------------------------------------------------------------
  // What the decision promises
  // ---------------------------------------------------------------------------

  /** A description without exactly one `#<digits>` is refused, carrying the Toggl entry,
      and nothing is sent. */
  lemma MissingHashtagRejected(params: SyncParameters, now: DateTime, togglEntry: TogglEntry,
                               issues: seq<RedmineIssue>, entries: seq<RedmineTimeEntry>, fault: Option<string>)
    requires HashtagCount(togglEntry.description) != 1
    ensures Decide(params, now, togglEntry, issues, entries) == Rejected("Missing issue hashtag")
    ensures EntryOutcome(params, togglEntry, Decide(params, now, togglEntry, issues, entries), fault)
            == Failed(SyncError(params.togglUserId, TogglSource(togglEntry), "Missing issue hashtag"))
    ensures DecisionWrites(Decide(params, now, togglEntry, issues, entries)) == []
  {
  }

  /** An issue number that no fetched issue, or more than one, carries is refused with
      the number in the message, and nothing is sent. */
  lemma UnresolvedIssueRejected(params: SyncParameters, now: DateTime, togglEntry: TogglEntry,
                                issues: seq<RedmineIssue>, entries: seq<RedmineTimeEntry>, n: nat)
    requires ExtractSingleHashtagNumber(togglEntry.description) == Some(n)
    requires (forall i :: 0 <= i < |issues| ==> issues[i].id != n) ||
             (exists i, j :: 0 <= i < j < |issues| && issues[i].id == n && issues[j].id == n)
    ensures Decide(params, now, togglEntry, issues, entries) == Rejected("No matching Redmine issue #" + NatToString(n) + " found")
    ensures DecisionWrites(Decide(params, now, togglEntry, issues, entries)) == []
  {
    FilterEmptyIff(issues, HasIssueId(n));
    FilterManyIff(issues, HasIssueId(n));
  }

  /** Whatever is sent or reported as a success carries the payload built from the
      Toggl entry: the issue referenced by its hashtag and that issue's project, the
      description with its correlation tag, which matches the entry again, and the
      date of its start. */
  lemma PayloadShape(params: SyncParameters, now: DateTime, togglEntry: TogglEntry,
                     issues: seq<RedmineIssue>, entries: seq<RedmineTimeEntry>)
    requires !Decide(params, now, togglEntry, issues, entries).Rejected?
    ensures var s := Decide(params, now, togglEntry, issues, entries).success;
            var p := s.newEntry;
            s.togglEntry == togglEntry &&
            ExtractSingleHashtagNumber(togglEntry.description) == Some(p.issueId) &&
            s.redmineIssue in issues &&
            p.issueId == s.redmineIssue.id && p.projectId == s.redmineIssue.projectId &&
            p.comments == togglEntry.description + " [" + NatToString(togglEntry.id) + "]" &&
            p.spentOn == togglEntry.start.date &&
            p.hours == RoundToHundredths(EpochMillis(togglEntry.end) - EpochMillis(togglEntry.start)) &&
            MatchesBySuffixKey(RedmineTimeEntry(0, p.issueId, p.projectId, 0, p.hours, p.comments, p.spentOn), togglEntry)
  {
    var n := ExtractSingleHashtagNumber(togglEntry.description).value;
    var issue := FindIssue(issues, n).value;
    var p := Payload(togglEntry, issue);
    assert Decide(params, now, togglEntry, issues, entries).success.newEntry == p;
    assert Decide(params, now, togglEntry, issues, entries).success.redmineIssue == issue;
    assert DescriptionWithKey(togglEntry) == togglEntry.description + " [" + NatToString(togglEntry.id) + "]";
  }

  /** With no entry carrying the tag: a frozen date is refused and nothing is sent;
      otherwise exactly one create is sent as the configured user and the result is
      `create` with no existing entry. */
  lemma CreatePath(params: SyncParameters, now: DateTime, togglEntry: TogglEntry,
                   issues: seq<RedmineIssue>, entries: seq<RedmineTimeEntry>, n: nat, i: int)
    requires Resolved(togglEntry, issues, n, i)
    requires forall k :: 0 <= k < |entries| ==> !MatchesBySuffixKey(entries[k], togglEntry)
    ensures var payload := Payload(togglEntry, issues[i]);
            var d := Decide(params, now, togglEntry, issues, entries);
            if IsSpentOnViolatingLastMonthSyncExpiryDays(togglEntry.start.date, params.lastMonthSyncExpiryDays, now)
            then d == Rejected("Last month sync period expired, skipped creating entry.") && DecisionWrites(d) == []
            else DecisionWrites(d) == [CreateRequest(Impersonating(params.redmineUsername), payload)] &&
                 d.success == SyncSuccess(togglEntry, None, payload, issues[i], Create)
  {
    FindIssueIff(issues, n, i);
    FilterEmptyIff(entries, MatchesKeyOf(togglEntry));
  }

  /** Two or more entries carrying the tag make the result an error and nothing is sent. */
  lemma AmbiguousMatchRejected(params: SyncParameters, now: DateTime, togglEntry: TogglEntry,
                               issues: seq<RedmineIssue>, entries: seq<RedmineTimeEntry>, n: nat, i: int, j: int, k: int)
    requires Resolved(togglEntry, issues, n, i)
    requires 0 <= j < k < |entries|
    requires MatchesBySuffixKey(entries[j], togglEntry) && MatchesBySuffixKey(entries[k], togglEntry)
    ensures Decide(params, now, togglEntry, issues, entries)
            == Rejected("Multiple matches found for toggl entry " + NatToString(togglEntry.id) + ", user " + params.redmineUsername)
    ensures DecisionWrites(Decide(params, now, togglEntry, issues, entries)) == []
  {
    FindIssueIff(issues, n, i);
    FilterManyIff(entries, MatchesKeyOf(togglEntry));
  }

  /** A single tagged entry equal to the payload on the five fields is left alone:
      `nop`, nothing sent, whatever the date. */
  lemma NopPath(params: SyncParameters, now: DateTime, togglEntry: TogglEntry,
                issues: seq<RedmineIssue>, entries: seq<RedmineTimeEntry>, n: nat, i: int, k: int)
    requires Resolved(togglEntry, issues, n, i)
    requires OnlyAt(entries, MatchesKeyOf(togglEntry), k)
    requires SameAsPayload(entries[k], Payload(togglEntry, issues[i]))
    ensures Decide(params, now, togglEntry, issues, entries)
            == Unchanged(SyncSuccess(togglEntry, Some(entries[k]), Payload(togglEntry, issues[i]), issues[i], Nop))
  {
    FindIssueIff(issues, n, i);
    MatchedAt(entries, togglEntry, k);
  }

  /** A single tagged entry that differs from the payload: when either date is frozen
      the result is the expiry error with the diff and nothing is sent; otherwise one
      update of that entry is sent, by the administrator exactly when so configured,
      and the result is `update`. */
  lemma UpdatePath(params: SyncParameters, now: DateTime, togglEntry: TogglEntry,
                   issues: seq<RedmineIssue>, entries: seq<RedmineTimeEntry>, n: nat, i: int, k: int)
    requires Resolved(togglEntry, issues, n, i)
    requires OnlyAt(entries, MatchesKeyOf(togglEntry), k)
    requires !SameAsPayload(entries[k], Payload(togglEntry, issues[i]))
    ensures var payload := Payload(togglEntry, issues[i]);
            var d := Decide(params, now, togglEntry, issues, entries);
            var days := params.lastMonthSyncExpiryDays;
            if IsSpentOnViolatingLastMonthSyncExpiryDays(entries[k].spentOn, days, now) ||
               IsSpentOnViolatingLastMonthSyncExpiryDays(togglEntry.start.date, days, now)
            then d == Rejected(UpdateExpiredMessage(UpdateDiff(entries[k], payload))) && DecisionWrites(d) == []
            else d.Write? && d.request.UpdateRequest? &&
                 d.request.entryId == entries[k].id && d.request.params == payload &&
                 (d.request.sender == Admin <==> params.updateEntriesAsAdminUser) &&
                 d.success == SyncSuccess(togglEntry, Some(entries[k]), payload, issues[i], Update)
  {
    FindIssueIff(issues, n, i);
    MatchedAt(entries, togglEntry, k);
  }

  /** Every error is about the Toggl entry and the configured Toggl user; a refused
      entry sends nothing; at most one request is sent. */
  lemma ErrorsAreAboutTheEntry(params: SyncParameters, now: DateTime, togglEntry: TogglEntry,
                               issues: seq<RedmineIssue>, entries: seq<RedmineTimeEntry>, fault: Option<string>)
    ensures var d := Decide(params, now, togglEntry, issues, entries);
            var r := EntryOutcome(params, togglEntry, d, fault);
            (r.Failed? ==> r.error.entry == TogglSource(togglEntry) && r.error.togglUserId == params.togglUserId) &&
            (r.Synced? ==> r.success.togglEntry == togglEntry) &&
            (d.Rejected? ==> DecisionWrites(d) == [] && r.Failed?) &&
            (r.Failed? <==> d.Rejected? || (d.Write? && fault.Some?)) &&
            |DecisionWrites(d)| <= 1
  {
    if !Decide(params, now, togglEntry, issues, entries).Rejected? {
      PayloadShape(params, now, togglEntry, issues, entries);
    }
  }

  /** No request ever writes a frozen date, and an update never touches an entry
      whose date is frozen. */
  lemma FrozenDatesNeverWritten(params: SyncParameters, now: DateTime, togglEntry: TogglEntry,
                                issues: seq<RedmineIssue>, entries: seq<RedmineTimeEntry>)
    requires Decide(params, now, togglEntry, issues, entries).Write?
    ensures var d := Decide(params, now, togglEntry, issues, entries);
            var days := params.lastMonthSyncExpiryDays;
            !IsSpentOnViolatingLastMonthSyncExpiryDays(d.request.params.spentOn, days, now) &&
            (d.request.UpdateRequest? ==>
              d.success.existingEntry.Some? &&
              d.success.existingEntry.value in entries &&
              d.success.existingEntry.value.id == d.request.entryId &&
              !IsSpentOnViolatingLastMonthSyncExpiryDays(d.success.existingEntry.value.spentOn, days, now))
  {
    var existing := MatchingEntries(entries, togglEntry);
    if |existing| == 1 {
      assert existing[0] in existing;
    }
  }

  // ---------------------------------------------------------------------------
  // The update diff
  // ---------------------------------------------------------------------------

  /** Each of the four parts of the diff shows an arrow exactly when its field changes. */
  lemma DiffShowsChangedFields(existing: RedmineTimeEntry, payload: TimeEntryParams)
    requires existing.spentOn.month < 100 && existing.spentOn.day < 100
    requires payload.spentOn.month < 100 && payload.spentOn.day < 100
    ensures var before := FormatDate(existing.spentOn);
            CombineWithArrowIfNotEqual(before, FormatDate(payload.spentOn)) == before <==> existing.spentOn == payload.spentOn
    ensures var before := NatToString(existing.issueId);
            CombineWithArrowIfNotEqual(before, NatToString(payload.issueId)) == before <==> existing.issueId == payload.issueId
    ensures var before := HoursToString(existing.hours);
            CombineWithArrowIfNotEqual(before, HoursToString(payload.hours)) == before <==> existing.hours == payload.hours
    ensures CombineWithArrowIfNotEqual(existing.comments, payload.comments) == existing.comments <==> existing.comments == payload.comments
  {
    if FormatDate(existing.spentOn) == FormatDate(payload.spentOn) {
      FormatDateInjective(existing.spentOn, payload.spentOn);
    }
    if NatToString(existing.issueId) == NatToString(payload.issueId) {
      NatToStringInjective(existing.issueId, payload.issueId);
    }
    if HoursToString(existing.hours) == HoursToString(payload.hours) {
      HoursToStringInjective(existing.hours, payload.hours);
    }
  }

  /** The project is compared but not shown: an update that only moves the entry to
      another project is reported with no arrow at all. */
  lemma ProjectChangeNotShownInDiff(existing: RedmineTimeEntry, payload: TimeEntryParams)
    requires existing.issueId == payload.issueId && existing.hours == payload.hours
    requires existing.comments == payload.comments && existing.spentOn == payload.spentOn
    requires existing.projectId != payload.projectId
    ensures !SameAsPayload(existing, payload)
    ensures UpdateDiff(existing, payload) ==
            FormatDate(existing.spentOn) + ", " + NatToString(existing.issueId) + ", " +
            HoursToString(existing.hours) + ", " + existing.comments
  {
    CombineReflexive(FormatDate(existing.spentOn));
    CombineReflexive(NatToString(existing.issueId));
    CombineReflexive(HoursToString(existing.hours));
    CombineReflexive(existing.comments);
  }

  // ---------------------------------------------------------------------------
  // Idempotence
  // ---------------------------------------------------------------------------

  /** The entry Redmine holds after accepting `params` for the entry `id` of user `userId`. */
  function StoredEntry(id: nat, userId: nat, params: TimeEntryParams): (e: RedmineTimeEntry)
    ensures SameAsPayload(e, params)
  {
    RedmineTimeEntry(id, params.issueId, params.projectId, userId, params.hours, params.comments, params.spentOn)
  }

  /** Every entry with id `id` replaced by the stored form of `params`. */
  function ReplaceById(entries: seq<RedmineTimeEntry>, id: nat, params: TimeEntryParams): (r: seq<RedmineTimeEntry>)
    ensures |r| == |entries|
    ensures forall i :: 0 <= i < |entries| ==>
              r[i] == if entries[i].id == id then StoredEntry(id, entries[i].userId, params) else entries[i]
  {
    if entries == [] then []
    else (if entries[0].id == id then [StoredEntry(id, entries[0].userId, params)] else [entries[0]])
         + ReplaceById(entries[1..], id, params)
  }

  /** The user's Redmine entries after an accepted request: a create adds a new entry
      with the id Redmine chose, an update rewrites the entry with that id. */
  function AppliedWrite(entries: seq<RedmineTimeEntry>, request: WriteRequest, newId: nat, userId: nat): seq<RedmineTimeEntry>
  {
    match request
    case CreateRequest(_, params) => entries + [StoredEntry(newId, userId, params)]
    case UpdateRequest(_, id, params) => ReplaceById(entries, id, params)
  }

  /** Ids identify Redmine entries. */
  predicate UniqueIds(entries: seq<RedmineTimeEntry>)
  {
    forall i, j :: 0 <= i < j < |entries| ==> entries[i].id != entries[j].id
  }

  lemma CreatedEntryOnlyMatch(entries: seq<RedmineTimeEntry>, togglEntry: TogglEntry, stored: RedmineTimeEntry)
    requires MatchingEntries(entries, togglEntry) == []
    requires MatchesBySuffixKey(stored, togglEntry)
    ensures OnlyAt(entries + [stored], MatchesKeyOf(togglEntry), |entries|)
  {
    FilterEmptyIff(entries, MatchesKeyOf(togglEntry));
  }

  lemma UpdatedEntryOnlyMatch(entries: seq<RedmineTimeEntry>, togglEntry: TogglEntry, k: int, params: TimeEntryParams)
    requires UniqueIds(entries)
    requires OnlyAt(entries, MatchesKeyOf(togglEntry), k)
    requires MatchesBySuffixKey(StoredEntry(entries[k].id, entries[k].userId, params), togglEntry)
    ensures OnlyAt(ReplaceById(entries, entries[k].id, params), MatchesKeyOf(togglEntry), k)
    ensures ReplaceById(entries, entries[k].id, params)[k] == StoredEntry(entries[k].id, entries[k].userId, params)
  {
    var r := ReplaceById(entries, entries[k].id, params);
    forall j | 0 <= j < |r| && j != k
      ensures r[j] == entries[j]
    {
      if j < k {
        assert entries[j].id != entries[k].id;
      } else {
        assert entries[k].id != entries[j].id;
      }
    }
  }

  /** After an accepted create, the new entry is the only match and equals the payload. */
  lemma NopAfterCreate(params: SyncParameters, later: DateTime, togglEntry: TogglEntry, issues: seq<RedmineIssue>,
                       entries: seq<RedmineTimeEntry>, n: nat, i: int, newId: nat, userId: nat)
    requires Resolved(togglEntry, issues, n, i)
    requires MatchingEntries(entries, togglEntry) == []
    ensures var payload := Payload(togglEntry, issues[i]);
            var stored := StoredEntry(newId, userId, payload);
            Decide(params, later, togglEntry, issues, entries + [stored])
              == Unchanged(SyncSuccess(togglEntry, Some(stored), payload, issues[i], Nop))
  {
    var payload := Payload(togglEntry, issues[i]);
    var stored := StoredEntry(newId, userId, payload);
    KeyedCommentMatches(stored, togglEntry, togglEntry);
    CreatedEntryOnlyMatch(entries, togglEntry, stored);
    NopPath(params, later, togglEntry, issues, entries + [stored], n, i, |entries|);
  }

  /** After an accepted update of the only match, the rewritten entry is still the
      only match and equals the payload. */
  lemma NopAfterUpdate(params: SyncParameters, later: DateTime, togglEntry: TogglEntry, issues: seq<RedmineIssue>,
                       entries: seq<RedmineTimeEntry>, n: nat, i: int, k: int)
    requires Resolved(togglEntry, issues, n, i)
    requires UniqueIds(entries)
    requires OnlyAt(entries, MatchesKeyOf(togglEntry), k)
    ensures var payload := Payload(togglEntry, issues[i]);
            var stored := StoredEntry(entries[k].id, entries[k].userId, payload);
            Decide(params, later, togglEntry, issues, ReplaceById(entries, entries[k].id, payload))
              == Unchanged(SyncSuccess(togglEntry, Some(stored), payload, issues[i], Nop))
  {
    var payload := Payload(togglEntry, issues[i]);
    var stored := StoredEntry(entries[k].id, entries[k].userId, payload);
    KeyedCommentMatches(stored, togglEntry, togglEntry);
    UpdatedEntryOnlyMatch(entries, togglEntry, k, payload);
    NopPath(params, later, togglEntry, issues, ReplaceById(entries, entries[k].id, payload), n, i, k);
  }

  /** Processing a Toggl entry again, at any later time, against the Redmine entries
      its own accepted create or update produced leaves Redmine alone: `nop`. */
  lemma ReprocessingAfterWriteIsNop(params: SyncParameters, now: DateTime, later: DateTime, togglEntry: TogglEntry,
                                    issues: seq<RedmineIssue>, entries: seq<RedmineTimeEntry>, newId: nat, userId: nat)
    requires UniqueIds(entries)
    requires Decide(params, now, togglEntry, issues, entries).Write?
    ensures var d := Decide(params, now, togglEntry, issues, entries);
            var after := AppliedWrite(entries, d.request, newId, userId);
            var again := Decide(params, later, togglEntry, issues, after);
            again.Unchanged? && again.success.action == Nop &&
            again.success.newEntry == d.request.params &&
            again.success.redmineIssue == d.success.redmineIssue &&
            DecisionWrites(again) == []
  {
    var d := Decide(params, now, togglEntry, issues, entries);
    var n := ExtractSingleHashtagNumber(togglEntry.description).value;
    FindIssueIff(issues, n, 0);
    var i :| OnlyAt(issues, HasIssueId(n), i);
    FindIssueIff(issues, n, i);
    assert Resolved(togglEntry, issues, n, i);
    var existing := MatchingEntries(entries, togglEntry);
    if |existing| == 0 {
      FilterEmptyIff(entries, MatchesKeyOf(togglEntry));
      CreatePath(params, now, togglEntry, issues, entries, n, i);
      NopAfterCreate(params, later, togglEntry, issues, entries, n, i, newId, userId);
    } else {
      FilterSingleIff(entries, MatchesKeyOf(togglEntry));
      var k :| OnlyAt(entries, MatchesKeyOf(togglEntry), k);
      UpdatePath(params, now, togglEntry, issues, entries, n, i, k);
      NopAfterUpdate(params, later, togglEntry, issues, entries, n, i, k);
    }
  }

  /** An entry left alone stays alone, at any later time. */
  lemma UnchangedIsStable(params: SyncParameters, now: DateTime, later: DateTime, togglEntry: TogglEntry,
                          issues: seq<RedmineIssue>, entries: seq<RedmineTimeEntry>)
    requires Decide(params, now, togglEntry, issues, entries).Unchanged?
    ensures Decide(params, later, togglEntry, issues, entries) == Decide(params, now, togglEntry, issues, entries)
    ensures Decide(params, now, togglEntry, issues, entries).success.action == Nop
  {
  }
}
