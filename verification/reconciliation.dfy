/** `syncTogglEnties`: one run for one user. It resolves the Redmine user, processes
    every Toggl entry against the user's Redmine entries, reports the user's Redmine
    entries whose Toggl source is gone, and orders everything newest first. The
    fetched users, issues and time entries are inputs. */
module Reconciliation {
  import opened Wrappers
  import opened Seqs
  import opened Decimal
  import opened Calendar
  import opened Helper
  import opened ApiTypes
  import opened CorrelationKey
  import opened EntryDecision
  import opened Sorting

  // ---------------------------------------------------------------------------
  // Users
  // ---------------------------------------------------------------------------

  function HasUserId(id: nat): RedmineUser -> bool
  {
    (u: RedmineUser) => u.id == id
  }

  function HasLogin(login: string): RedmineUser -> bool
  {
    (u: RedmineUser) => u.login == login
  }

  /** `getRedmineUserById`: the one user with the id, or the error it throws. */
  function GetRedmineUserById(users: seq<RedmineUser>, id: nat): (r: Result<RedmineUser, string>)
    ensures r.Success? ==> r.value in users && r.value.id == id
    ensures r.Failure? ==> r.error == "User with id " + NatToString(id) + " not found among queried redmine users"
  {
    match Single(Filter(users, HasUserId(id)))
    case Some(u) => Success(u)
    case None => Failure("User with id " + NatToString(id) + " not found among queried redmine users")
  }

  /** The lookup of the configured login at the start of the run. */
  function FindUserByLogin(users: seq<RedmineUser>, login: string): (r: Result<RedmineUser, string>)
    ensures r.Success? ==> r.value in users && r.value.login == login
    ensures r.Failure? ==> r.error == "User " + login + " not found in redmine"
  {
    match Single(Filter(users, HasLogin(login)))
    case Some(u) => Success(u)
    case None => Failure("User " + login + " not found in redmine")
  }

  /** The lookup by id succeeds exactly when one user has the id, and yields that user. */
  lemma GetRedmineUserByIdIff(users: seq<RedmineUser>, id: nat, i: int)
    ensures GetRedmineUserById(users, id).Success? <==> exists k :: OnlyAt(users, HasUserId(id), k)
    ensures OnlyAt(users, HasUserId(id), i) ==> GetRedmineUserById(users, id) == Success(users[i])
  {
    FilterSingleIff(users, HasUserId(id));
  }

  /** The lookup by login fails exactly when no user, or more than one, has the login. */
  lemma FindUserByLoginFails(users: seq<RedmineUser>, login: string)
    ensures FindUserByLogin(users, login).Failure? <==>
            (forall i :: 0 <= i < |users| ==> users[i].login != login) ||
            (exists i, j :: 0 <= i < j < |users| && users[i].login == login && users[j].login == login)
  {
    FilterEmptyIff(users, HasLogin(login));
    FilterManyIff(users, HasLogin(login));
    FilterSingleIff(users, HasLogin(login));
  }

  /** The entry's user resolves and has the configured login. */
  predicate BelongsTo(users: seq<RedmineUser>, login: string, e: RedmineTimeEntry)
  {
    var u := GetRedmineUserById(users, e.userId);
    u.Success? && u.value.login == login
  }

  function BelongsToUser(users: seq<RedmineUser>, login: string): RedmineTimeEntry -> bool
  {
    (e: RedmineTimeEntry) => BelongsTo(users, login, e)
  }

  /** The user of the entry at `i` cannot be resolved, and `i` is the first such entry. */
  predicate FirstUnresolved(users: seq<RedmineUser>, entries: seq<RedmineTimeEntry>, i: int)
  {
    0 <= i < |entries| && GetRedmineUserById(users, entries[i].userId).Failure? &&
    forall j :: 0 <= j < i ==> GetRedmineUserById(users, entries[j].userId).Success?
  }

  /** The filter "by current user": the entries whose user has the configured login, in
      order, or the error of the first entry whose user cannot be resolved. */
  function CurrentUserEntries(users: seq<RedmineUser>, login: string, entries: seq<RedmineTimeEntry>)
    : (r: Result<seq<RedmineTimeEntry>, string>)
    ensures r.Success? <==> forall i :: 0 <= i < |entries| ==> GetRedmineUserById(users, entries[i].userId).Success?
    ensures r.Success? ==> r.value == Filter(entries, BelongsToUser(users, login))
    ensures r.Failure? ==>
              exists i :: FirstUnresolved(users, entries, i) && r.error == GetRedmineUserById(users, entries[i].userId).error
  {
    if entries == [] then Success([])
    else
      var e := entries[0];
      match GetRedmineUserById(users, e.userId)
      case Failure(message) => Failure(message)
      case Success(u) =>
        match CurrentUserEntries(users, login, entries[1..])
        case Failure(message) =>
          assert forall k :: 1 <= k < |entries| ==> entries[k] == entries[1..][k - 1];
          Failure(message)
        case Success(rest) =>
          assert forall k :: 1 <= k < |entries| ==> entries[k] == entries[1..][k - 1];
          Success((if u.login == login then [e] else []) + rest)
  }

  // ---------------------------------------------------------------------------
  // Referenced issues
  // ---------------------------------------------------------------------------

  /** The issue numbers of the descriptions that carry exactly one hashtag, in order. */
  function HashtagNumbers(togglEntries: seq<TogglEntry>): (r: seq<nat>)
    ensures forall n :: n in r <==> exists t :: t in togglEntries && ExtractSingleHashtagNumber(t.description) == Some(n)
  {
    if togglEntries == [] then []
    else
      var last := togglEntries[|togglEntries| - 1];
      var init := togglEntries[..|togglEntries| - 1];
      assert togglEntries == init + [last];
      HashtagNumbers(init) +
      (match ExtractSingleHashtagNumber(last.description) case Some(n) => [n] case None => [])
  }

  /** `distinctBy(x => x)`: the first occurrence of every element. */
  function Distinct(s: seq<nat>): (r: seq<nat>)
    ensures forall x :: x in r <==> x in s
    ensures forall i, j :: 0 <= i < j < |r| ==> r[i] != r[j]
  {
    if s == [] then []
    else
      var init := Distinct(s[..|s| - 1]);
      assert s == s[..|s| - 1] + [s[|s| - 1]];
      if s[|s| - 1] in init then init else init + [s[|s| - 1]]
  }

  /** `referencedIssueIds`: the issue numbers the run queries, each once. */
  function ReferencedIssueIds(togglEntries: seq<TogglEntry>): seq<nat>
  {
    Distinct(HashtagNumbers(togglEntries))
  }

  /** Every issue a Toggl entry can be booked on is queried, once. */
  lemma ReferencedIssueIdsIff(togglEntries: seq<TogglEntry>, n: nat)
    ensures n in ReferencedIssueIds(togglEntries) <==>
            exists t :: t in togglEntries && ExtractSingleHashtagNumber(t.description) == Some(n)
    ensures forall i, j :: 0 <= i < j < |ReferencedIssueIds(togglEntries)| ==>
              ReferencedIssueIds(togglEntries)[i] != ReferencedIssueIds(togglEntries)[j]
  {
  }

  // ---------------------------------------------------------------------------
  // Orphans
  // ---------------------------------------------------------------------------

  const OrphanMessage: string :=
    "No corresponding Toggl entry for Redmine entry (Deleted toggl entry after it was synced to redmine? If yes, go and delete it manually in redmine as well.)"

  /** The comment contains a `[digits]` token somewhere (the pattern is not anchored). */
  function HasBracketedNumber(): RedmineTimeEntry -> bool
  {
    (e: RedmineTimeEntry) => ContainsBracketedNumber(e.comments)
  }

  /** No Toggl entry of the run suffix-matches the Redmine entry. */
  predicate Unmatched(togglEntries: seq<TogglEntry>, e: RedmineTimeEntry)
  {
    forall t :: t in togglEntries ==> !MatchesBySuffixKey(e, t)
  }

  function UnmatchedBy(togglEntries: seq<TogglEntry>): RedmineTimeEntry -> bool
  {
    (e: RedmineTimeEntry) => Unmatched(togglEntries, e)
  }

  function OrphanError(params: SyncParameters, e: RedmineTimeEntry): SyncOutcome
  {
    Failed(SyncError(params.togglUserId, RedmineSource(e), OrphanMessage))
  }

  /** The orphan part of the run: the tagged entries, restricted to the current user
      (which fails when a tagged entry's user cannot be resolved), that no Toggl
      entry matches, each reported as an error about the Redmine entry. */
  function DetectOrphans(params: SyncParameters, users: seq<RedmineUser>, entries: seq<RedmineTimeEntry>,
                         togglEntries: seq<TogglEntry>): (r: Result<seq<SyncOutcome>, string>)
    ensures r.Success? ==> forall o :: o in r.value ==> IsSyncError(o)
  {
    var tagged := Filter(entries, HasBracketedNumber());
    match CurrentUserEntries(users, params.redmineUsername, tagged)
    case Failure(message) => Failure(message)
    case Success(mine) =>
      var orphans := Filter(mine, UnmatchedBy(togglEntries));
      Success(seq(|orphans|, i requires 0 <= i < |orphans| => OrphanError(params, orphans[i])))
  }

  /** The orphan search fails exactly when a tagged entry's user cannot be resolved. */
  lemma OrphanSearchFailsIff(params: SyncParameters, users: seq<RedmineUser>, entries: seq<RedmineTimeEntry>,
                             togglEntries: seq<TogglEntry>)
    ensures DetectOrphans(params, users, entries, togglEntries).Failure? <==>
            exists i :: 0 <= i < |entries| && ContainsBracketedNumber(entries[i].comments) &&
                        GetRedmineUserById(users, entries[i].userId).Failure?
  {
    var tagged := Filter(entries, HasBracketedNumber());
    var cu := CurrentUserEntries(users, params.redmineUsername, tagged);
    if cu.Failure? {
      var k :| FirstUnresolved(users, tagged, k);
      assert tagged[k] in tagged;
    } else {
      forall i | 0 <= i < |entries| && ContainsBracketedNumber(entries[i].comments)
        ensures GetRedmineUserById(users, entries[i].userId).Success?
      {
        assert entries[i] in tagged;
      }
    }
  }

  /** Every orphan is an error about a Redmine entry with the orphan message. */
  lemma OrphansAreRedmineErrors(params: SyncParameters, users: seq<RedmineUser>, entries: seq<RedmineTimeEntry>,
                                togglEntries: seq<TogglEntry>, o: SyncOutcome)
    requires DetectOrphans(params, users, entries, togglEntries).Success?
    requires o in DetectOrphans(params, users, entries, togglEntries).value
    ensures o.Failed? && o.error.entry.RedmineSource? && o.error.errorMessage == OrphanMessage
    ensures o.error.togglUserId == params.togglUserId
    ensures var e := o.error.entry.redmineEntry;
            e in entries && BelongsTo(users, params.redmineUsername, e) && Unmatched(togglEntries, e)
  {
    var tagged := Filter(entries, HasBracketedNumber());
    var mine := CurrentUserEntries(users, params.redmineUsername, tagged).value;
    var orphans := Filter(mine, UnmatchedBy(togglEntries));
    var i :| 0 <= i < |orphans| && DetectOrphans(params, users, entries, togglEntries).value[i] == o;
    assert orphans[i] in orphans;
  }

  /** A Redmine entry is reported as an orphan exactly when it belongs to the current
      user, carries a `[digits]` token, and no Toggl entry matches it. */
  lemma OrphanIff(params: SyncParameters, users: seq<RedmineUser>, entries: seq<RedmineTimeEntry>,
                  togglEntries: seq<TogglEntry>, e: RedmineTimeEntry)
    requires DetectOrphans(params, users, entries, togglEntries).Success?
    ensures OrphanError(params, e) in DetectOrphans(params, users, entries, togglEntries).value <==>
            e in entries && ContainsBracketedNumber(e.comments) &&
            BelongsTo(users, params.redmineUsername, e) && Unmatched(togglEntries, e)
  {
    if OrphanError(params, e) in DetectOrphans(params, users, entries, togglEntries).value {
      OrphansAreRedmineErrors(params, users, entries, togglEntries, OrphanError(params, e));
    }
    if e in entries && ContainsBracketedNumber(e.comments) &&
       BelongsTo(users, params.redmineUsername, e) && Unmatched(togglEntries, e) {
      UnmatchedEntryIsOrphan(params, users, entries, togglEntries, e);
    }
  }

  lemma UnmatchedEntryIsOrphan(params: SyncParameters, users: seq<RedmineUser>, entries: seq<RedmineTimeEntry>,
                               togglEntries: seq<TogglEntry>, e: RedmineTimeEntry)
    requires DetectOrphans(params, users, entries, togglEntries).Success?
    requires e in entries && ContainsBracketedNumber(e.comments)
    requires BelongsTo(users, params.redmineUsername, e) && Unmatched(togglEntries, e)
    ensures OrphanError(params, e) in DetectOrphans(params, users, entries, togglEntries).value
  {
    var r := DetectOrphans(params, users, entries, togglEntries).value;
    var tagged := Filter(entries, HasBracketedNumber());
    var mine := CurrentUserEntries(users, params.redmineUsername, tagged).value;
    var orphans := Filter(mine, UnmatchedBy(togglEntries));
    assert e in tagged;
    assert e in mine;
    assert e in orphans;
    var i :| 0 <= i < |orphans| && orphans[i] == e;
    assert r[i] == OrphanError(params, e);
  }

  /** A Redmine entry written from a Toggl entry of the run is never an orphan. */
  lemma SyncedEntryIsNoOrphan(params: SyncParameters, users: seq<RedmineUser>, entries: seq<RedmineTimeEntry>,
                              togglEntries: seq<TogglEntry>, e: RedmineTimeEntry, t: TogglEntry)
    requires t in togglEntries && e.comments == DescriptionWithKey(t)
    requires DetectOrphans(params, users, entries, togglEntries).Success?
    ensures OrphanError(params, e) !in DetectOrphans(params, users, entries, togglEntries).value
  {
    KeyedCommentMatches(e, t, t);
    OrphanIff(params, users, entries, togglEntries, e);
  }

  // ---------------------------------------------------------------------------
  // Ordering
  // ---------------------------------------------------------------------------

  /** The instant an outcome is ordered by: the Toggl start for successes and for
      errors about a Toggl entry, the midnight of `spent_on` for orphans. */
  function Timestamp(o: SyncOutcome): int
  {
    if IsSyncError(o) then
      match o.error.entry
      case TogglSource(t) => EpochMillis(t.start)
      case RedmineSource(e) => EpochMillis(AtMidnight(e.spentOn))
    else EpochMillis(o.success.togglEntry.start)
  }

  /** `sortBy((x, y) => ts2 - ts1)`: newest first, ties kept in their original order. */
  function SortByTimestampDesc(s: seq<SyncOutcome>): seq<SyncOutcome>
  {
    SortByKeyDesc(s, Timestamp)
  }

  /** The sorted outcomes are the same outcomes, newest first, and outcomes with the
      same timestamp keep their original order. */
  lemma SortByTimestampDescSpec(s: seq<SyncOutcome>, k: int)
    ensures var r := SortByTimestampDesc(s);
            (forall i, j :: 0 <= i < j < |r| ==> Timestamp(r[i]) >= Timestamp(r[j])) &&
            multiset(r) == multiset(s) &&
            Filter(r, HasKey(Timestamp, k)) == Filter(s, HasKey(Timestamp, k))
  {
    SortByKeyDescSpec(s, Timestamp, k);
  }

  // ---------------------------------------------------------------------------
  // The run
  // ---------------------------------------------------------------------------

  /** The outcomes of the Toggl entries, in their order; `faults[i]` is Redmine's answer
      to the request of entry `i`. */
  function Outcomes(params: SyncParameters, now: DateTime, togglEntries: seq<TogglEntry>,
                    issues: seq<RedmineIssue>, mine: seq<RedmineTimeEntry>, faults: seq<Option<string>>)
    : (r: seq<SyncOutcome>)
    requires |faults| == |togglEntries|
    ensures |r| == |togglEntries|
    ensures forall i :: 0 <= i < |r| ==>
              r[i] == EntryOutcome(params, togglEntries[i], Decide(params, now, togglEntries[i], issues, mine), faults[i])
  {
    if togglEntries == [] then []
    else
      var n := |togglEntries| - 1;
      Outcomes(params, now, togglEntries[..n], issues, mine, faults[..n]) +
      [EntryOutcome(params, togglEntries[n], Decide(params, now, togglEntries[n], issues, mine), faults[n])]
  }

  /** The requests the Toggl entries send, in their order. */
  function RunWrites(params: SyncParameters, now: DateTime, togglEntries: seq<TogglEntry>,
                     issues: seq<RedmineIssue>, mine: seq<RedmineTimeEntry>): seq<WriteRequest>
  {
    if togglEntries == [] then []
    else
      var n := |togglEntries| - 1;
      RunWrites(params, now, togglEntries[..n], issues, mine) +
      DecisionWrites(Decide(params, now, togglEntries[n], issues, mine))
  }

  /** What a run resolves to, and the requests it sends on the way. */
  datatype Run = Run(result: Result<seq<SyncOutcome>, string>, requests: seq<WriteRequest>)

  function Reconcile(params: SyncParameters, now: DateTime, users: seq<RedmineUser>, issues: seq<RedmineIssue>,
                     entries: seq<RedmineTimeEntry>, togglEntries: seq<TogglEntry>, faults: seq<Option<string>>): Run
    requires |faults| == |togglEntries|
  {
    var login := params.redmineUsername;
    var mine := CurrentUserEntries(users, login, entries);
    if FindUserByLogin(users, login).Failure? then
      Run(Failure(FindUserByLogin(users, login).error), [])
    else if togglEntries != [] && mine.Failure? then
      Run(Failure(mine.error), [])
    else
      var current := if togglEntries == [] then [] else mine.value;
      var outcomes := Outcomes(params, now, togglEntries, issues, current, faults);
      var writes := RunWrites(params, now, togglEntries, issues, current);
      match DetectOrphans(params, users, entries, togglEntries)
      case Failure(message) => Run(Failure(message), writes)
      case Success(orphans) => Run(Success(SortByTimestampDesc(outcomes + orphans)), writes)
  }

  /** Processing one more Toggl entry adds its outcome and its requests at the end. */
  lemma RunStep(params: SyncParameters, now: DateTime, togglEntries: seq<TogglEntry>, issues: seq<RedmineIssue>,
                mine: seq<RedmineTimeEntry>, faults: seq<Option<string>>, i: int)
    requires |faults| == |togglEntries| && 0 <= i < |togglEntries|
    ensures var d := Decide(params, now, togglEntries[i], issues, mine);
            Outcomes(params, now, togglEntries[..i + 1], issues, mine, faults[..i + 1]) ==
              Outcomes(params, now, togglEntries[..i], issues, mine, faults[..i]) + [EntryOutcome(params, togglEntries[i], d, faults[i])] &&
            RunWrites(params, now, togglEntries[..i + 1], issues, mine) ==
              RunWrites(params, now, togglEntries[..i], issues, mine) + DecisionWrites(d)
  {
    assert togglEntries[..i + 1][..i] == togglEntries[..i];
    assert faults[..i + 1][..i] == faults[..i];
  }

  /** The `map` over the Toggl entries, one entry after the other. */
  method SyncEach(server: RedmineServer, params: SyncParameters, now: DateTime, togglEntries: seq<TogglEntry>,
                  issues: seq<RedmineIssue>, mine: seq<RedmineTimeEntry>, faults: seq<Option<string>>)
    returns (outcomes: seq<SyncOutcome>)
    requires |faults| == |togglEntries|
    modifies server
    ensures outcomes == Outcomes(params, now, togglEntries, issues, mine, faults)
    ensures server.requests == old(server.requests) + RunWrites(params, now, togglEntries, issues, mine)
  {
    outcomes := [];
    var i := 0;
    while i < |togglEntries|
      invariant 0 <= i <= |togglEntries|
      invariant outcomes == Outcomes(params, now, togglEntries[..i], issues, mine, faults[..i])
      invariant server.requests == old(server.requests) + RunWrites(params, now, togglEntries[..i], issues, mine)
    {
      var outcome := SyncTogglEntry(server, params, now, togglEntries[i], issues, mine, faults[i]);
      RunStep(params, now, togglEntries, issues, mine, faults, i);
      outcomes := outcomes + [outcome];
      i := i + 1;
    }
    assert togglEntries[..i] == togglEntries;
    assert faults[..i] == faults;
  }

  /** `syncTogglEnties` on fetched data: the Toggl entries are processed one after the
      other, then the orphans are added and everything is sorted. */
  method SyncTogglEntries(server: RedmineServer, params: SyncParameters, now: DateTime, users: seq<RedmineUser>,
                          issues: seq<RedmineIssue>, entries: seq<RedmineTimeEntry>, togglEntries: seq<TogglEntry>,
                          faults: seq<Option<string>>)
    returns (r: Result<seq<SyncOutcome>, string>)
    requires |faults| == |togglEntries|
    modifies server
    ensures r == Reconcile(params, now, users, issues, entries, togglEntries, faults).result
    ensures server.requests == old(server.requests) + Reconcile(params, now, users, issues, entries, togglEntries, faults).requests
  {
    var redmineUser := FindUserByLogin(users, params.redmineUsername);
    if redmineUser.Failure? {
      return Failure(redmineUser.error);
    }
    var mine: seq<RedmineTimeEntry> := [];
    if togglEntries != [] {
      var current := CurrentUserEntries(users, params.redmineUsername, entries);
      if current.Failure? {
        return Failure(current.error);
      }
      mine := current.value;
    }

    var outcomes := SyncEach(server, params, now, togglEntries, issues, mine, faults);
    var orphans := DetectOrphans(params, users, entries, togglEntries);
    if orphans.Failure? {
      return Failure(orphans.error);
    }
    return Success(SortByTimestampDesc(outcomes + orphans.value));
  }

  // ---------------------------------------------------------------------------
  // What a run promises
  // ---------------------------------------------------------------------------

  /** A successful run holds the outcome of every Toggl entry, decided against the
      current user's Redmine entries, plus the orphans, newest first; the requests are
      those of the Toggl entries' decisions, in order. */
  lemma ReconcileShape(params: SyncParameters, now: DateTime, users: seq<RedmineUser>, issues: seq<RedmineIssue>,
                       entries: seq<RedmineTimeEntry>, togglEntries: seq<TogglEntry>, faults: seq<Option<string>>)
    requires |faults| == |togglEntries|
    requires Reconcile(params, now, users, issues, entries, togglEntries, faults).result.Success?
    ensures FindUserByLogin(users, params.redmineUsername).Success?
    ensures togglEntries != [] ==> CurrentUserEntries(users, params.redmineUsername, entries).Success?
    ensures DetectOrphans(params, users, entries, togglEntries).Success?
    ensures var run := Reconcile(params, now, users, issues, entries, togglEntries, faults);
            var mine := if togglEntries == [] then [] else CurrentUserEntries(users, params.redmineUsername, entries).value;
            var outcomes := Outcomes(params, now, togglEntries, issues, mine, faults);
            multiset(run.result.value) == multiset(outcomes + DetectOrphans(params, users, entries, togglEntries).value) &&
            SortedDesc(run.result.value, Timestamp) &&
            run.requests == RunWrites(params, now, togglEntries, issues, mine)
  {
    var mine := if togglEntries == [] then [] else CurrentUserEntries(users, params.redmineUsername, entries).value;
    var orphans := DetectOrphans(params, users, entries, togglEntries).value;
    var outcomes := Outcomes(params, now, togglEntries, issues, mine, faults);
    assert Reconcile(params, now, users, issues, entries, togglEntries, faults).result.value
        == SortByTimestampDesc(outcomes + orphans);
    SortByTimestampDescSpec(outcomes + orphans, 0);
  }

  /** A run whose user lookups fail stops before sending anything: the configured login
      must name exactly one user, and, when there are Toggl entries, every Redmine
      entry's user must resolve. */
  lemma ReconcileAbortsBeforeWriting(params: SyncParameters, now: DateTime, users: seq<RedmineUser>, issues: seq<RedmineIssue>,
                                     entries: seq<RedmineTimeEntry>, togglEntries: seq<TogglEntry>, faults: seq<Option<string>>, i: int)
    requires |faults| == |togglEntries|
    requires FindUserByLogin(users, params.redmineUsername).Failure? ||
             (togglEntries != [] && 0 <= i < |entries| && GetRedmineUserById(users, entries[i].userId).Failure?)
    ensures var run := Reconcile(params, now, users, issues, entries, togglEntries, faults);
            run.result.Failure? && run.requests == []
  {
  }

  /** The orphan search runs after the Toggl entries were processed, but it fails only
      for a tagged entry whose user is unknown, and that same entry has already failed
      the user filter of every Toggl entry: a failed orphan search fails the run, and
      nothing was sent. With no Toggl entries, it is the orphan search's own error. */
  lemma OrphanFailureSendsNothing(params: SyncParameters, now: DateTime, users: seq<RedmineUser>, issues: seq<RedmineIssue>,
                                  entries: seq<RedmineTimeEntry>, togglEntries: seq<TogglEntry>, faults: seq<Option<string>>)
    requires |faults| == |togglEntries|
    requires DetectOrphans(params, users, entries, togglEntries).Failure?
    ensures var run := Reconcile(params, now, users, issues, entries, togglEntries, faults);
            run.result.Failure? && run.requests == []
    ensures FindUserByLogin(users, params.redmineUsername).Success? && togglEntries == [] ==>
            Reconcile(params, now, users, issues, entries, togglEntries, faults).result ==
              Failure(DetectOrphans(params, users, entries, togglEntries).error)
  {
    OrphanSearchFailsIff(params, users, entries, togglEntries);
    var i :| 0 <= i < |entries| && ContainsBracketedNumber(entries[i].comments) &&
             GetRedmineUserById(users, entries[i].userId).Failure?;
  }

  /** Whatever makes a run fail, the failure comes before any request is sent. */
  lemma FailedRunSendsNothing(params: SyncParameters, now: DateTime, users: seq<RedmineUser>, issues: seq<RedmineIssue>,
                              entries: seq<RedmineTimeEntry>, togglEntries: seq<TogglEntry>, faults: seq<Option<string>>)
    requires |faults| == |togglEntries|
    ensures var run := Reconcile(params, now, users, issues, entries, togglEntries, faults);
            run.result.Failure? ==> run.requests == []
  {
    if DetectOrphans(params, users, entries, togglEntries).Failure? {
      OrphanFailureSendsNothing(params, now, users, issues, entries, togglEntries, faults);
    }
  }

  /** The orphan search only looks at tagged entries: with no Toggl entries, an
      untagged entry whose user cannot be resolved does not stop the run. */
  lemma EmptyRunChecksOnlyTaggedUsers(params: SyncParameters, now: DateTime, users: seq<RedmineUser>, issues: seq<RedmineIssue>,
                                      entries: seq<RedmineTimeEntry>)
    requires FindUserByLogin(users, params.redmineUsername).Success?
    requires forall i :: 0 <= i < |entries| && ContainsBracketedNumber(entries[i].comments) ==>
               GetRedmineUserById(users, entries[i].userId).Success?
    ensures Reconcile(params, now, users, issues, entries, [], []).result.Success?
    ensures Reconcile(params, now, users, issues, entries, [], []).requests == []
  {
    OrphanSearchFailsIff(params, users, entries, []);
  }
}
