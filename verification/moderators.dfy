/** `ModeratorService`: a moderator's statistics, the paged moderator listing,
    reading, soft-deleting and creating moderators. */
module Moderators {
  import opened Wrappers
  import opened Text
  import opened Lists
  import opened Schema
  import Audit
  import Votes

  // ---------------------------------------------------------------------
  // GetModeratorStats

  /** `ModeratorStatsDto`. */
  datatype ModeratorStats = ModeratorStats(
    totalPollsCreated: nat,
    totalVoterEmailsCreated: nat,
    totalVoterEmailsUsed: nat,
    totalVotesReceived: nat)

  /** The polls, deleted ones included, created under `email`. */
  ghost function PollsBy(polls: map<Id, Poll>, email: string): set<Id> {
    set p | p in polls && polls[p].createdBy == email
  }

  /** The whitelist entries moderator `m` made. */
  ghost function WhitelistedBy(whitelist: map<string, VoterEmail>, m: Id): set<string> {
    set e | e in whitelist && whitelist[e].moderatorId == m
  }

  /** The whitelist entries moderator `m` made that a voter has registered with. */
  ghost function UsedWhitelistedBy(whitelist: map<string, VoterEmail>, m: Id): set<string> {
    set e | e in whitelist && whitelist[e].moderatorId == m && whitelist[e].isUsed
  }

  /** The voter checks marked as voted on one of the polls in `pollIds`. */
  ghost function VotesReceived(checks: map<Id, VoterCheck>, pollIds: set<Id>): set<Id> {
    set c | c in checks && checks[c].pollId in pollIds && checks[c].hasVoted
  }

  /** `GetModeratorStats`: counts over the poll, whitelist and voter-check
      tables for an existing moderator; an unknown id is not found. */
  ghost function GetModeratorStats(s: Store, moderatorId: Id): (r: Result<ModeratorStats>)
    ensures r.Ok? <==> moderatorId in s.moderators
    ensures r.Err? ==> r.error == NotFound
    ensures r.Ok? ==>
      var email := s.moderators[moderatorId].email;
      && r.value.totalPollsCreated == |PollsBy(s.polls, email)|
      && r.value.totalVoterEmailsCreated == |WhitelistedBy(s.whitelist, moderatorId)|
      && r.value.totalVoterEmailsUsed == |UsedWhitelistedBy(s.whitelist, moderatorId)|
      && r.value.totalVotesReceived == |VotesReceived(s.checks, PollsBy(s.polls, email))|
    ensures r.Ok? ==> r.value.totalVoterEmailsUsed <= r.value.totalVoterEmailsCreated
    ensures r.Ok? ==> r.value.totalVotesReceived <= |s.checks|
  {
    if moderatorId !in s.moderators then Err(NotFound)
    else
      var email := s.moderators[moderatorId].email;
      var pollIds := PollsBy(s.polls, email);
      SubsetCard(UsedWhitelistedBy(s.whitelist, moderatorId), WhitelistedBy(s.whitelist, moderatorId));
      SubsetCard(VotesReceived(s.checks, pollIds), s.checks.Keys);
      Ok(ModeratorStats(|pollIds|, |WhitelistedBy(s.whitelist, moderatorId)|,
                        |UsedWhitelistedBy(s.whitelist, moderatorId)|, |VotesReceived(s.checks, pollIds)|))
  }

  /** A new voted check counts once for the moderator owning its poll and for no one else. */
  lemma VotesReceivedAfterCheck(checks: map<Id, VoterCheck>, pollIds: set<Id>, checkId: Id, check: VoterCheck)
    requires checkId !in checks && check.hasVoted
    ensures |VotesReceived(checks[checkId := check], pollIds)|
         == |VotesReceived(checks, pollIds)| + (if check.pollId in pollIds then 1 else 0)
  {
    var after := VotesReceived(checks[checkId := check], pollIds);
    if check.pollId in pollIds {
      assert after == VotesReceived(checks, pollIds) + {checkId};
    } else {
      assert after == VotesReceived(checks, pollIds);
    }
  }

  /** A successful vote raises the poll creator's `TotalVotesReceived` by one
      and leaves every other count, and every other moderator's, as it was. */
  lemma CastVoteCountsForCreator(s: Store, caller: Option<string>, optionId: Id, now: Instant,
                                 checkId: Id, voteId: Id, moderatorId: Id)
    requires Valid(s)
    requires checkId !in s.checks && voteId !in s.votes
    requires Votes.CastVote(s, caller, optionId, now, checkId, voteId).result.Ok?
    requires moderatorId in s.moderators
    ensures var before := GetModeratorStats(s, moderatorId).value;
      var after := GetModeratorStats(Votes.CastVote(s, caller, optionId, now, checkId, voteId).store, moderatorId).value;
      var poll := s.polls[s.options[optionId].pollId];
      && after.totalPollsCreated == before.totalPollsCreated
      && after.totalVoterEmailsCreated == before.totalVoterEmailsCreated
      && after.totalVoterEmailsUsed == before.totalVoterEmailsUsed
      && after.totalVotesReceived
         == before.totalVotesReceived + (if poll.createdBy == s.moderators[moderatorId].email then 1 else 0)
  {
    var t := Votes.CastVote(s, caller, optionId, now, checkId, voteId).store;
    var p := s.options[optionId].pollId;
    var email := s.moderators[moderatorId].email;
    assert OptionsBelongToPolls(s.polls, s.options);
    assert p in s.polls;
    assert p in PollsBy(s.polls, email) <==> s.polls[p].createdBy == email;
    var check := t.checks[checkId];
    assert t.checks == s.checks[checkId := check];
    VotesReceivedAfterCheck(s.checks, PollsBy(s.polls, email), checkId, check);
  }

  // ---------------------------------------------------------------------
  // FilterModerators, SearchModerators, SortModerators

  /** `ModeratorQueryDto`. */
  datatype ModeratorQuery = ModeratorQuery(
    searchTerm: Option<string>,
    sortBy: Option<string>,
    sortDesc: bool,
    email: Option<string>,
    isDeleted: Option<bool>,
    page: int,
    pageSize: int)

  /** The e-mail test, ignoring case. */
  function HasEmail(email: string): Moderator -> bool {
    (m: Moderator) => EqualsIgnoreCase(m.email, email)
  }

  predicate IsLiveModerator(m: Moderator) { !m.isDeleted }

  /** Both filter criteria hold for `m`: the e-mail, when given, matches
      ignoring case; deleted moderators pass only when `IsDeleted` is true. */
  predicate PassesModeratorFilter(q: ModeratorQuery, m: Moderator) {
    && (IsNullOrEmpty(q.email) || EqualsIgnoreCase(m.email, q.email.value))
    && (q.isDeleted == Some(true) || !m.isDeleted)
  }

  /** `FilterModerators`. */
  function FilterModerators(ms: seq<Moderator>, q: ModeratorQuery): (r: seq<Moderator>)
    ensures forall m :: multiset(r)[m] == if PassesModeratorFilter(q, m) then multiset(ms)[m] else 0
  {
    var byEmail := if IsNullOrEmpty(q.email) then ms else Filter(ms, HasEmail(q.email.value));
    if q.isDeleted == Some(true) then byEmail else Filter(byEmail, IsLiveModerator)
  }

  /** A non-empty name or e-mail of `m`, lower-cased, contains `term`. */
  predicate ModeratorMatches(m: Moderator, term: string) {
    || (|m.name| > 0 && Contains(Lower(m.name), term))
    || (|m.email| > 0 && Contains(Lower(m.email), term))
  }

  function ModeratorSearchTest(term: string): Moderator -> bool {
    (m: Moderator) => ModeratorMatches(m, term)
  }

  /** `SearchModerators`: an absent or empty term returns the list unchanged;
      otherwise exactly the moderators whose name or e-mail contains it, ignoring case. */
  function SearchModerators(ms: seq<Moderator>, q: ModeratorQuery): (r: seq<Moderator>)
    ensures IsNullOrEmpty(q.searchTerm) ==> r == ms
    ensures !IsNullOrEmpty(q.searchTerm) ==>
      forall m :: multiset(r)[m] == if ModeratorMatches(m, Lower(q.searchTerm.value)) then multiset(ms)[m] else 0
  {
    if IsNullOrEmpty(q.searchTerm) then ms
    else Filter(ms, ModeratorSearchTest(Lower(q.searchTerm.value)))
  }

  function NameLe(a: Moderator, b: Moderator): bool { StrLe(a.name, b.name) }
  function EmailLe(a: Moderator, b: Moderator): bool { StrLe(a.email, b.email) }

  /** `OrderBy(m => m.IsDeleted)`: live moderators sort before deleted ones. */
  function LiveFirst(a: Moderator, b: Moderator): bool { !a.isDeleted || b.isDeleted }

  /** `OrderBy(m => m.IsDeleted).ThenBy(key)`: live first, then by `le` among equals. */
  function LiveFirstThen(le: (Moderator, Moderator) -> bool): (Moderator, Moderator) -> bool {
    (a: Moderator, b: Moderator) => (!a.isDeleted && b.isDeleted) || (a.isDeleted == b.isDeleted && le(a, b))
  }

  /** The secondary key order: by name when no key is named, by name or
      e-mail in either direction for those keys, none for any other key. */
  function ModeratorKey(sortBy: Option<string>, descending: bool): Option<(Moderator, Moderator) -> bool> {
    if IsNullOrEmpty(sortBy) then Some(NameLe)
    else
      var key := Lower(sortBy.value);
      if key == "name" then Some(if descending then Reversed(NameLe) else NameLe)
      else if key == "email" then Some(if descending then Reversed(EmailLe) else EmailLe)
      else None
  }

  /** The whole order `SortModerators` applies. */
  function ModeratorOrder(q: ModeratorQuery): (Moderator, Moderator) -> bool {
    match ModeratorKey(q.sortBy, q.sortDesc)
    case None => LiveFirst
    case Some(le) => LiveFirstThen(le)
  }

  /** `SortModerators`: a stable sort, live moderators first. */
  function SortModerators(ms: seq<Moderator>, q: ModeratorQuery): (r: seq<Moderator>)
    ensures multiset(r) == multiset(ms)
  {
    SortBy(ms, ModeratorOrder(q))
  }

  lemma LiveFirstThenIsPreorder(le: (Moderator, Moderator) -> bool)
    requires TotalPreorder(le)
    ensures TotalPreorder(LiveFirstThen(le))
  {
  }

  /** Every order `SortModerators` can choose compares any two moderators and is transitive. */
  lemma ModeratorOrderIsPreorder(q: ModeratorQuery)
    ensures TotalPreorder(ModeratorOrder(q))
  {
    forall a: Moderator, b: Moderator ensures NameLe(a, b) || NameLe(b, a) {
      StrLeTotal(a.name, b.name);
    }
    forall a: Moderator, b: Moderator, c: Moderator | NameLe(a, b) && NameLe(b, c) ensures NameLe(a, c) {
      StrLeTransitive(a.name, b.name, c.name);
    }
    forall a: Moderator, b: Moderator ensures EmailLe(a, b) || EmailLe(b, a) {
      StrLeTotal(a.email, b.email);
    }
    forall a: Moderator, b: Moderator, c: Moderator | EmailLe(a, b) && EmailLe(b, c) ensures EmailLe(a, c) {
      StrLeTransitive(a.email, b.email, c.email);
    }
    assert TotalPreorder(NameLe) && TotalPreorder(EmailLe);
    ReversedTotalPreorder(NameLe);
    ReversedTotalPreorder(EmailLe);
    var key := ModeratorKey(q.sortBy, q.sortDesc);
    if key.Some? {
      LiveFirstThenIsPreorder(key.value);
    }
  }

  /** The sorted list puts every live moderator before every deleted one,
      orders moderators of the same status by the key, and keeps moderators
      the order cannot tell apart in their input order. */
  lemma SortModeratorsOrdered(ms: seq<Moderator>, q: ModeratorQuery, c: Moderator)
    ensures var r := SortModerators(ms, q);
      && (forall i, j :: 0 <= i < j < |r| && r[i].isDeleted ==> r[j].isDeleted)
      && (ModeratorKey(q.sortBy, q.sortDesc).Some? ==>
            forall i, j :: 0 <= i < j < |r| && r[i].isDeleted == r[j].isDeleted ==>
              ModeratorKey(q.sortBy, q.sortDesc).value(r[i], r[j]))
      && Ties(r, ModeratorOrder(q), c) == Ties(ms, ModeratorOrder(q), c)
  {
    ModeratorOrderIsPreorder(q);
    SortBySorted(ms, ModeratorOrder(q));
    SortByStable(ms, ModeratorOrder(q), c);
  }

  // ---------------------------------------------------------------------
  // QueryModeratorsPaged

  /** `PagedResponseDto<Moderator>`. */
  datatype ModeratorPage = ModeratorPage(data: seq<Moderator>, pagination: Pagination)

  /** Both the filter and the search let `m` through. */
  predicate PassesModeratorQuery(q: ModeratorQuery, m: Moderator) {
    PassesModeratorFilter(q, m) && (IsNullOrEmpty(q.searchTerm) || ModeratorMatches(m, Lower(q.searchTerm.value)))
  }

  /** The filtered, searched and sorted list the page is cut from. */
  function ListModerators(ms: seq<Moderator>, q: ModeratorQuery): (r: seq<Moderator>)
    ensures forall m :: multiset(r)[m] == if PassesModeratorQuery(q, m) then multiset(ms)[m] else 0
  {
    SortModerators(SearchModerators(FilterModerators(ms, q), q), q)
  }

  /** A page of `listed`, with the counts of the whole listing. */
  function ModeratorPageOf(listed: seq<Moderator>, page: int, pageSize: int): (r: ModeratorPage)
    requires pageSize >= 1
    ensures r.pagination == Pagination(|listed|, page, pageSize, CeilDiv(|listed|, pageSize))
    ensures |r.data| <= pageSize
    ensures forall i :: 0 <= i < |r.data| ==>
      SkipCount(page, pageSize) + i < |listed| && r.data[i] == listed[SkipCount(page, pageSize) + i]
  {
    ModeratorPage(PageOf(listed, page, pageSize), Pagination(|listed|, page, pageSize, CeilDiv(|listed|, pageSize)))
  }

  /** `QueryModeratorsPaged` as written. `rows` is the moderator table in
      table order; the repository's `GetAll` hands over only the live rows
      and fails when there are none, so the `IsDeleted` filter can never
      bring a deleted moderator back. */
  function QueryModeratorsPagedAsWritten(rows: seq<Moderator>, q: ModeratorQuery): (r: Result<ModeratorPage>)
    requires q.pageSize >= 1
    ensures r.Err? <==> forall i :: 0 <= i < |rows| ==> rows[i].isDeleted
    ensures r.Err? ==> r.error == NotFound
    ensures r.Ok? ==> r.value == ModeratorPageOf(ListModerators(Filter(rows, IsLiveModerator), q), q.page, q.pageSize)
  {
    var live := Filter(rows, IsLiveModerator);
    if |live| == 0 then
      assert forall i :: 0 <= i < |rows| ==> rows[i].isDeleted by {
        forall i | 0 <= i < |rows| ensures rows[i].isDeleted {
          FilterMembership(rows, IsLiveModerator, rows[i]);
        }
      }
      Err(NotFound)
    else
      assert live[0] in rows && IsLiveModerator(live[0]) by {
        FilterMembership(rows, IsLiveModerator, live[0]);
      }
      Ok(ModeratorPageOf(ListModerators(live, q), q.page, q.pageSize))
  }

  /** Asking for deleted moderators (`IsDeleted = true`) never lists one. */
  lemma DeletedModeratorNeverListed(rows: seq<Moderator>, q: ModeratorQuery, m: Moderator)
    requires q.pageSize >= 1 && q.isDeleted == Some(true)
    requires m in rows && m.isDeleted
    requires QueryModeratorsPagedAsWritten(rows, q).Ok?
    ensures m !in QueryModeratorsPagedAsWritten(rows, q).value.data
  {
    var live := Filter(rows, IsLiveModerator);
    var listed := ListModerators(live, q);
    FilterMembership(rows, IsLiveModerator, m);
    assert multiset(listed)[m] == 0;
    var data := QueryModeratorsPagedAsWritten(rows, q).value.data;
    forall i | 0 <= i < |data| ensures data[i] != m {
      assert data[i] in multiset(listed);
    }
  }

  /** `QueryModeratorsPaged` reading every moderator row, so that
      `IsDeleted = true` includes the deleted moderators the filter lets through. */
  function QueryModeratorsPaged(rows: seq<Moderator>, q: ModeratorQuery): (r: Result<ModeratorPage>)
    requires q.pageSize >= 1
    ensures r.Err? <==> |rows| == 0
    ensures r.Err? ==> r.error == NotFound
    ensures r.Ok? ==> r.value == ModeratorPageOf(ListModerators(rows, q), q.page, q.pageSize)
  {
    if |rows| == 0 then Err(NotFound) else Ok(ModeratorPageOf(ListModerators(rows, q), q.page, q.pageSize))
  }

  /** With `IsDeleted = true` and no e-mail or term, every moderator, deleted or
      not, is on the page its position in the listing names. */
  lemma DeletedModeratorListed(rows: seq<Moderator>, q: ModeratorQuery, i: nat)
    requires q.pageSize >= 1 && q.isDeleted == Some(true)
    requires IsNullOrEmpty(q.email) && IsNullOrEmpty(q.searchTerm)
    requires i < |rows|
    ensures |ListModerators(rows, q)| == |rows|
    ensures var r := QueryModeratorsPaged(rows, q.(page := i / q.pageSize + 1));
      && r.Ok? && 1 <= i / q.pageSize + 1 <= r.value.pagination.totalPages
      && i % q.pageSize < |r.value.data| && r.value.data[i % q.pageSize] == ListModerators(rows, q)[i]
  {
    var listed := ListModerators(rows, q);
    assert FilterModerators(rows, q) == rows;
    assert |listed| == |rows|;
    var q' := q.(page := i / q.pageSize + 1);
    assert ListModerators(rows, q') == listed by {
      assert FilterModerators(rows, q') == rows;
    }
    PagesCover(listed, q.pageSize, i);
  }

  // ---------------------------------------------------------------------
  // GetModeratorByIdAsync, DeleteModerator, AddModerator

  /** `GetModeratorByIdAsync`: a missing or soft-deleted moderator is not found. */
  function GetModeratorById(s: Store, moderatorId: Id): (r: Result<Moderator>)
    ensures r.Ok? <==> moderatorId in s.moderators && !s.moderators[moderatorId].isDeleted
    ensures r.Ok? ==> r.value == s.moderators[moderatorId]
    ensures r.Err? ==> r.error == NotFound
  {
    if moderatorId !in s.moderators || s.moderators[moderatorId].isDeleted then Err(NotFound)
    else Ok(s.moderators[moderatorId])
  }

  /** `DeleteModerator`: for a signed-in caller, marks an existing moderator
      deleted and logs it; the moderator's polls, voters and account stay. */
  function DeleteModerator(s: Store, caller: Option<string>, moderatorId: Id, now: Instant): (st: Step<Moderator>)
    ensures st.result.Ok? <==> moderatorId in s.moderators && caller.Some?
    ensures moderatorId !in s.moderators ==> st.result == Err(NotFound)
    ensures moderatorId in s.moderators && caller.None? ==> st.result == Err(Unauthenticated)
    ensures st.result.Err? ==> st.store == s
    ensures st.result.Ok? ==>
      && st.result.value == s.moderators[moderatorId].(isDeleted := true)
      && st.store.moderators == s.moderators[moderatorId := st.result.value]
      && st.store == s.(moderators := st.store.moderators, audit := st.store.audit)
      && |st.store.audit| == |s.audit| + 1
      && st.store.audit[|s.audit|].entityId == moderatorId
      && st.store.audit[|s.audit|].updatedBy == caller
  {
    if moderatorId !in s.moderators then Step(s, Err(NotFound))
    else if caller.None? then Step(s, Err(Unauthenticated))
    else
      var m := s.moderators[moderatorId].(isDeleted := true);
      var t := s.(moderators := s.moderators[moderatorId := m]);
      Step(Audit.Log(t, "Moderator soft deleted: " + m.email, moderatorId, None, caller, now), Ok(m))
  }

  /** After a delete the moderator is no longer found, and deleting again
      leaves the moderator table as it is. */
  lemma DeleteModeratorHides(s: Store, caller: Option<string>, moderatorId: Id, now: Instant, later: Instant)
    requires DeleteModerator(s, caller, moderatorId, now).result.Ok?
    ensures var t := DeleteModerator(s, caller, moderatorId, now).store;
      && GetModeratorById(t, moderatorId) == Err(NotFound)
      && DeleteModerator(t, caller, moderatorId, later).store.moderators == t.moderators
  {
  }

  lemma DeleteModeratorPreservesValid(s: Store, caller: Option<string>, moderatorId: Id, now: Instant)
    requires Valid(s)
    ensures Valid(DeleteModerator(s, caller, moderatorId, now).store)
  {
    var st := DeleteModerator(s, caller, moderatorId, now);
    if st.result.Ok? {
      var t := st.store;
      assert t.moderators.Keys == s.moderators.Keys;
      assert ModeratorEmails(t.moderators) == ModeratorEmails(s.moderators);
      assert AccountIntegrity(t);
    }
  }

  /** `AddModeratorRequestDto`. */
  datatype NewModeratorRequest = NewModeratorRequest(name: string, email: string, password: string)

  /** The role name stored on a moderator's account. */
  const ModeratorRole: string := "Moderator"

  /** `AddModerator`. `passwordHash` is what the encryption service returns for
      the password, `moderatorId` the id the database assigns. The moderator and
      its account are saved before the caller is looked at, so a call with no
      signed-in caller fails with both rows stored. */
  ghost function AddModerator(s: Store, caller: Option<string>, request: Option<NewModeratorRequest>,
                              passwordHash: string, now: Instant, moderatorId: Id): (st: Step<Moderator>)
    requires moderatorId !in s.moderators
    ensures request.None? ==> st == Step(s, Err(InvalidArgument))
    ensures request.Some? && request.value.email in s.users ==> st == Step(s, Err(AlreadyExists))
    ensures request.Some? && request.value.email !in s.users && request.value.email in ModeratorEmails(s.moderators)
      ==> st == Step(s, Err(ConstraintViolation))
    ensures st.result.Ok? <==>
      request.Some? && request.value.email !in s.users && request.value.email !in ModeratorEmails(s.moderators)
      && caller.Some?
    ensures st.result == Err(Unauthenticated) || st.result.Ok? ==>
      var req := request.value;
      && st.store.moderators == s.moderators[moderatorId := Moderator(moderatorId, req.name, req.email, false)]
      && st.store.users == s.users[req.email := User(req.email, passwordHash, ModeratorRole, moderatorId)]
      && st.store == s.(moderators := st.store.moderators, users := st.store.users, audit := st.store.audit)
    ensures st.result == Err(Unauthenticated) ==> st.store.audit == s.audit
    ensures st.result.Ok? ==>
      && st.result.value == st.store.moderators[moderatorId]
      && |st.store.audit| == |s.audit| + 1
      && st.store.audit[|s.audit|].createdBy == caller
      && st.store.audit[|s.audit|].entityId == moderatorId
  {
    if request.None? then Step(s, Err(InvalidArgument))
    else
      var req := request.value;
      if req.email in s.users then Step(s, Err(AlreadyExists))
      else if req.email in ModeratorEmails(s.moderators) then Step(s, Err(ConstraintViolation))
      else
        var m := Moderator(moderatorId, req.name, req.email, false);
        var t := s.(moderators := s.moderators[moderatorId := m],
                    users := s.users[req.email := User(req.email, passwordHash, ModeratorRole, moderatorId)]);
        if caller.None? then Step(t, Err(Unauthenticated))
        else Step(Audit.Log(t, "Moderator added: " + req.email, moderatorId, caller, None, now), Ok(m))
  }

  /** A moderator with a new id and a new e-mail adds just that e-mail. */
  lemma ModeratorEmailsAfterAdd(ms: map<Id, Moderator>, m: Moderator)
    requires m.id !in ms && m.email !in ModeratorEmails(ms) && ModeratorEmailsUnique(ms)
    ensures ModeratorEmails(ms[m.id := m]) == ModeratorEmails(ms) + {m.email}
    ensures ModeratorEmailsUnique(ms[m.id := m])
  {
    var after := ms[m.id := m];
    forall e ensures e in ModeratorEmails(after) <==> e in ModeratorEmails(ms) || e == m.email {
      if e in ModeratorEmails(ms) {
        var k :| k in ms && ms[k].email == e;
        assert after[k] == ms[k];
      }
      if e == m.email {
        assert after[m.id].email == e;
      }
    }
    forall k | k in ms ensures ms[k].email != m.email {
      assert ms[k].email in ModeratorEmails(ms);
    }
    forall a, b | a in after && b in after && after[a].email == after[b].email ensures a == b {
      if a != m.id && b != m.id {
        assert after[a] == ms[a] && after[b] == ms[b];
      }
    }
  }

  /** A new moderator with a new account under its e-mail keeps the store valid. */
  lemma ValidAfterNewModerator(s: Store, t: Store, m: Moderator, u: User)
    requires Valid(s)
    requires m.id !in s.moderators && m.email !in ModeratorEmails(s.moderators) && m.email !in s.users
    requires u.username == m.email
    requires t.moderators == s.moderators[m.id := m] && t.users == s.users[m.email := u]
    requires t == s.(moderators := t.moderators, users := t.users, audit := t.audit)
    ensures Valid(t)
  {
    ModeratorEmailsAfterAdd(s.moderators, m);
    assert PollCreatorsAreModerators(t.polls, t.moderators);
    assert ModeratorsHaveUsers(t.moderators, t.users);
    assert AccountIntegrity(t);
  }

  /** Adding a moderator keeps the store valid, whether or not a caller is signed in. */
  lemma AddModeratorPreservesValid(s: Store, caller: Option<string>, request: Option<NewModeratorRequest>,
                                   passwordHash: string, now: Instant, moderatorId: Id)
    requires Valid(s) && moderatorId !in s.moderators
    ensures Valid(AddModerator(s, caller, request, passwordHash, now, moderatorId).store)
  {
    var st := AddModerator(s, caller, request, passwordHash, now, moderatorId);
    if st.result == Err(Unauthenticated) || st.result.Ok? {
      var req := request.value;
      ValidAfterNewModerator(s, st.store, Moderator(moderatorId, req.name, req.email, false),
                             User(req.email, passwordHash, ModeratorRole, moderatorId));
    }
  }
}
