/** The poll lifecycle of `PollService`: creating a poll with its options,
    patching it (replacing its options), soft-deleting it, and reading it back. */
module Polls {
  import opened Wrappers
  import opened Text
  import opened Lists
  import opened Schema
  import Audit

  /** `new Poll()`: what `PollRepository.Get` hands back for an id it does not know. */
  const BlankPoll: Poll := Poll(EmptyId, "", "", "", 0, 0, false)

  /** `PollRepository.Get`: the stored poll, or a blank one. */
  function PollOrBlank(polls: map<Id, Poll>, id: Id): Poll {
    if id in polls then polls[id] else BlankPoll
  }

  /** A poll together with its option rows, as `PollResponseDto` carries them. */
  datatype PollView = PollView(poll: Poll, options: map<Id, PollOption>)

  /** The body of a create request (`AddPollRequestDto`); `optionTexts` is `None` for a null list. */
  datatype NewPollRequest = NewPollRequest(
    title: string,
    description: string,
    startDate: Day,
    endDate: Day,
    optionTexts: Option<seq<string>>)

  /** The body of an update request (`UpdatePollRequestDto`): each field is optional. */
  datatype PollPatch = PollPatch(
    title: Option<string>,
    description: Option<string>,
    startDate: Option<Day>,
    endDate: Option<Day>,
    optionTexts: Option<seq<string>>,
    isDeleted: Option<bool>)

  // ---------------------------------------------------------------------
  // Option rows

  /** The ids of poll `p`'s options. */
  ghost function OptionIdsOf(options: map<Id, PollOption>, p: Id): set<Id> {
    set o | o in options && options[o].pollId == p
  }

  /** `Where(opt => opt.PollId == p)` over the option table. */
  ghost function OptionsOf(options: map<Id, PollOption>, p: Id): (r: map<Id, PollOption>)
    ensures r.Keys == OptionIdsOf(options, p)
    ensures forall o :: o in r ==> r[o] == options[o]
  {
    map o | o in options && options[o].pollId == p :: options[o]
  }

  /** `ids` holds a distinct, unused id for each of `texts`. */
  ghost predicate FreshOptionIds(options: map<Id, PollOption>, texts: seq<string>, ids: seq<Id>) {
    |ids| >= |texts| && Distinct(ids) && forall i :: 0 <= i < |ids| ==> ids[i] !in options
  }

  /** The option rows built from `texts` for poll `p`: one per text, with no votes. */
  function NewOptions(p: Id, texts: seq<string>, ids: seq<Id>): map<Id, PollOption>
    requires |ids| >= |texts| && Distinct(ids)
  {
    map i | 0 <= i < |texts| :: ids[i] := PollOption(ids[i], p, texts[i], 0, false)
  }

  /** Poll `p` has an option reading `text`. */
  ghost predicate Offers(options: map<Id, PollOption>, p: Id, text: string) {
    exists o :: o in OptionIdsOf(options, p) && options[o].text == text
  }

  /** Poll `p` has exactly one option per text of `texts`, none voted for and none deleted. */
  ghost predicate HasFreshOptionsFor(options: map<Id, PollOption>, p: Id, texts: seq<string>) {
    && |OptionIdsOf(options, p)| == |texts|
    && (forall i :: 0 <= i < |texts| ==> Offers(options, p, texts[i]))
    && (forall o :: o in OptionIdsOf(options, p) ==> options[o].voteCount == 0 && !options[o].isDeleted)
  }

  /** The option table with poll `p`'s options deleted and `texts` added in their place. */
  ghost function ReplaceOptions(options: map<Id, PollOption>, p: Id, texts: seq<string>, ids: seq<Id>): map<Id, PollOption>
    requires |ids| >= |texts| && Distinct(ids)
  {
    (map o | o in options && options[o].pollId != p :: options[o]) + NewOptions(p, texts, ids)
  }

  /** The vote table once the options in `removed` are deleted: their votes go with them. */
  ghost function CascadeVotes(votes: map<Id, PollVote>, removed: set<Id>): map<Id, PollVote> {
    map v | v in votes && votes[v].optionId !in removed :: votes[v]
  }

  /** `added` holds one row per text of `texts`, keyed by the matching id of
      `ids`, each for poll `p`, unvoted and not deleted. */
  ghost predicate RowsFor(added: map<Id, PollOption>, p: Id, texts: seq<string>, ids: seq<Id>) {
    && |ids| >= |texts|
    && |added.Keys| == |texts|
    && (forall i :: 0 <= i < |texts| ==> ids[i] in added && added[ids[i]].text == texts[i])
    && (forall o :: o in added ==> added[o] == PollOption(o, p, added[o].text, 0, false))
  }

  /** The rows built from `texts` are one per text, keyed by the first `|texts|` ids. */
  lemma NewOptionsShape(p: Id, texts: seq<string>, ids: seq<Id>)
    requires |ids| >= |texts| && Distinct(ids)
    ensures RowsFor(NewOptions(p, texts, ids), p, texts, ids)
  {
    var prefix := ids[..|texts|];
    assert Distinct(prefix);
    DistinctCount(prefix);
    assert NewOptions(p, texts, ids).Keys == set i | 0 <= i < |prefix| :: prefix[i];
  }

  /** The rows built from ids unused in `base` are new to `base`. */
  lemma NewOptionsFresh(base: map<Id, PollOption>, p: Id, texts: seq<string>, ids: seq<Id>)
    requires FreshOptionIds(base, texts, ids)
    ensures forall o :: o in NewOptions(p, texts, ids) ==> o !in base
  {
    forall o | o in NewOptions(p, texts, ids) ensures o !in base {
      var i :| 0 <= i < |texts| && ids[i] == o;
    }
  }

  /** Rows added for a poll that had none are exactly that poll's options afterwards. */
  lemma AddedAreTheOptions(base: map<Id, PollOption>, p: Id, added: map<Id, PollOption>)
    requires OptionIdsOf(base, p) == {}
    requires forall o :: o in added ==> o !in base && added[o].pollId == p
    ensures OptionIdsOf(base + added, p) == added.Keys
  {
    forall o | o in base ensures base[o].pollId != p {
      assert o !in OptionIdsOf(base, p);
    }
    forall o ensures o in OptionIdsOf(base + added, p) <==> o in added {
      if o in added {
        assert (base + added)[o] == added[o];
      }
    }
  }

  /** Adding fresh option rows for a poll that has none yields exactly those options. */
  lemma AddedOptionsAreFresh(base: map<Id, PollOption>, p: Id, texts: seq<string>, ids: seq<Id>,
                             added: map<Id, PollOption>)
    requires RowsFor(added, p, texts, ids) && forall o :: o in added ==> o !in base
    requires OptionIdsOf(base, p) == {}
    ensures HasFreshOptionsFor(base + added, p, texts)
  {
    var r := base + added;
    AddedAreTheOptions(base, p, added);
    assert |OptionIdsOf(r, p)| == |texts|;
    forall i | 0 <= i < |texts| ensures Offers(r, p, texts[i]) {
      var o := ids[i];
      assert o in OptionIdsOf(r, p) && r[o].text == texts[i];
    }
    forall o | o in OptionIdsOf(r, p) ensures r[o].voteCount == 0 && !r[o].isDeleted {
      assert r[o] == added[o];
    }
  }

  /** Replacing poll `p`'s options leaves `p` with exactly the new ones and
      every other poll's options as they were. */
  lemma ReplaceOptionsFresh(options: map<Id, PollOption>, p: Id, texts: seq<string>, ids: seq<Id>)
    requires FreshOptionIds(options, texts, ids)
    ensures var t := ReplaceOptions(options, p, texts, ids);
      && HasFreshOptionsFor(t, p, texts)
      && (forall o :: o in options && options[o].pollId != p ==> o in t && t[o] == options[o])
      && (forall o :: o in t && t[o].pollId != p ==> o in options)
  {
    var kept := map o | o in options && options[o].pollId != p :: options[o];
    assert OptionIdsOf(kept, p) == {};
    assert FreshOptionIds(kept, texts, ids);
    NewOptionsShape(p, texts, ids);
    NewOptionsFresh(kept, p, texts, ids);
    var added := NewOptions(p, texts, ids);
    AddedOptionsAreFresh(kept, p, texts, ids, added);
    NewOptionsFresh(options, p, texts, ids);
    OtherPollsKept(options, p, kept, added);
  }

  /** Putting rows for poll `p` under new ids next to the other polls' rows
      leaves those rows as they were. */
  lemma OtherPollsKept(options: map<Id, PollOption>, p: Id, kept: map<Id, PollOption>, added: map<Id, PollOption>)
    requires kept == map o | o in options && options[o].pollId != p :: options[o]
    requires forall o :: o in added ==> o !in options && added[o].pollId == p
    ensures forall o :: o in options && options[o].pollId != p ==> o in kept + added && (kept + added)[o] == options[o]
    ensures forall o :: o in kept + added && (kept + added)[o].pollId != p ==> o in options
  {
  }

  // ---------------------------------------------------------------------
  // Validation

  /** The request rules `UpdatePoll` enforces on a patch: a present title is not
      blank, a present end date lies after today, both dates present are in
      order, and a present option list has at least two texts. */
  predicate PatchAccepted(patch: PollPatch, today: Day) {
    && (patch.title.Some? ==> !IsBlank(patch.title.value))
    && (patch.endDate.Some? ==> patch.endDate.value > today)
    && (patch.startDate.Some? && patch.endDate.Some? ==> patch.startDate.value <= patch.endDate.value)
    && (patch.optionTexts.Some? ==> |patch.optionTexts.value| >= 2)
  }

  /** The poll with every field the patch carries overwritten. */
  function Patched(poll: Poll, patch: PollPatch): Poll {
    poll.(title := patch.title.GetOr(poll.title),
          description := patch.description.GetOr(poll.description),
          startDate := patch.startDate.GetOr(poll.startDate),
          endDate := patch.endDate.GetOr(poll.endDate),
          isDeleted := patch.isDeleted.GetOr(poll.isDeleted))
  }

  /** The option ids an update needs: fresh ones for a new option list, distinct texts. */
  ghost predicate PatchIdsFresh(s: Store, patch: PollPatch, ids: seq<Id>) {
    patch.optionTexts.Some? ==> Distinct(patch.optionTexts.value) && FreshOptionIds(s.options, patch.optionTexts.value, ids)
  }

  // ---------------------------------------------------------------------
  // AddPoll

  /** Whether `AddPoll` accepts a request from `caller` on day `today`. */
  ghost predicate AddPollAccepted(s: Store, caller: Option<string>, request: Option<NewPollRequest>, today: Day) {
    && request.Some?
    && !IsBlank(request.value.title)
    && request.value.optionTexts.Some? && |request.value.optionTexts.value| >= 2
    && request.value.endDate > today
    && caller.Some?
    && caller.value in ModeratorEmails(s.moderators)
  }

  /** `PollService.AddPoll`. The poll's creator is the caller; the database
      refuses a creator e-mail that is no moderator's. `pollId` and `ids` are the
      ids the database assigns to the poll and its options. */
  ghost function AddPoll(s: Store, caller: Option<string>, request: Option<NewPollRequest>, today: Day, now: Instant,
                         pollId: Id, ids: seq<Id>): (st: Step<Poll>)
    requires pollId !in s.polls
    requires request.Some? && request.value.optionTexts.Some? ==>
      Distinct(request.value.optionTexts.value) && FreshOptionIds(s.options, request.value.optionTexts.value, ids)
    ensures st.result.Ok? <==> AddPollAccepted(s, caller, request, today)
    ensures st.result.Err? ==> st.store == s
    ensures request.Some? && !IsBlank(request.value.title) && request.value.optionTexts.Some?
      && |request.value.optionTexts.value| >= 2 && request.value.endDate > today && caller.None?
      ==> st.result == Err(Unauthenticated)
    ensures st.result.Ok? ==>
      var r := st.result.value;
      && r == Poll(pollId, request.value.title, request.value.description, caller.value,
                   request.value.startDate, request.value.endDate, false)
      && st.store.polls == s.polls[pollId := r]
      && st.store.options == s.options + NewOptions(pollId, request.value.optionTexts.value, ids)
      && st.store == s.(polls := st.store.polls, options := st.store.options, audit := st.store.audit)
      && |st.store.audit| == |s.audit| + 1 && st.store.audit[..|s.audit|] == s.audit
      && st.store.audit[|s.audit|].description == "Poll created: " + r.title
      && st.store.audit[|s.audit|].createdBy == caller
  {
    if request.None? then Step(s, Err(InvalidArgument))
    else if IsBlank(request.value.title) then Step(s, Err(InvalidArgument))
    else if request.value.optionTexts.None? || |request.value.optionTexts.value| < 2 then Step(s, Err(InvalidArgument))
    else if request.value.endDate <= today then Step(s, Err(InvalidArgument))
    else if caller.None? then Step(s, Err(Unauthenticated))
    else if caller.value !in ModeratorEmails(s.moderators) then Step(s, Err(ConstraintViolation))
    else
      var req := request.value;
      var poll := Poll(pollId, req.title, req.description, caller.value, req.startDate, req.endDate, false);
      var t := s.(polls := s.polls[pollId := poll],
                  options := s.options + NewOptions(pollId, req.optionTexts.value, ids));
      Step(Audit.Log(t, "Poll created: " + req.title, pollId, caller, None, now), Ok(poll))
  }

  /** A new poll gets exactly one option per supplied text, and no other poll's options change. */
  lemma AddPollCreatesOptions(s: Store, caller: Option<string>, request: Option<NewPollRequest>, today: Day,
                              now: Instant, pollId: Id, ids: seq<Id>)
    requires Valid(s)
    requires pollId !in s.polls
    requires request.Some? && request.value.optionTexts.Some? ==>
      Distinct(request.value.optionTexts.value) && FreshOptionIds(s.options, request.value.optionTexts.value, ids)
    requires AddPoll(s, caller, request, today, now, pollId, ids).result.Ok?
    ensures var t := AddPoll(s, caller, request, today, now, pollId, ids).store;
      && HasFreshOptionsFor(t.options, pollId, request.value.optionTexts.value)
      && (forall o :: o in s.options ==> o in t.options && t.options[o] == s.options[o])
      && (forall o :: o in t.options && o !in s.options ==> t.options[o].pollId == pollId)
  {
    var texts := request.value.optionTexts.value;
    NewPollHasNoOptions(s.polls, s.options, pollId);
    NewOptionsShape(pollId, texts, ids);
    NewOptionsFresh(s.options, pollId, texts, ids);
    AddedOptionsAreFresh(s.options, pollId, texts, ids, NewOptions(pollId, texts, ids));
  }

  // ---------------------------------------------------------------------
  // UpdatePoll

  /** What a successful update does: the poll takes the patch, a new option list
      replaces the old one (whose votes are deleted with it), and one audit entry
      is appended; nothing else changes. */
  ghost predicate UpdatedAsPatched(s: Store, t: Store, pollId: Id, patch: PollPatch, ids: seq<Id>,
                                   caller: string, now: Instant, r: Poll)
  {
    && pollId in s.polls
    && r == Patched(s.polls[pollId], patch)
    && t.polls == s.polls[pollId := r]
    && (patch.optionTexts.None? ==> t.options == s.options && t.votes == s.votes)
    && (patch.optionTexts.Some? ==>
          && |ids| >= |patch.optionTexts.value| && Distinct(ids)
          && t.options == ReplaceOptions(s.options, pollId, patch.optionTexts.value, ids)
          && t.votes == CascadeVotes(s.votes, OptionIdsOf(s.options, pollId)))
    && |t.audit| == |s.audit| + 1 && t.audit[..|s.audit|] == s.audit
    && t.audit[|s.audit|].description == "Poll updated: " + r.title
    && t.audit[|s.audit|].updatedBy == Some(caller)
    && t == s.(polls := t.polls, options := t.options, votes := t.votes, audit := t.audit)
  }

  /** `PollService.UpdatePoll`. The caller must be the creator twice over: first
      compared ignoring case, then exactly. Every rule is checked before the
      first write, so a refusal changes nothing. File attachments are not modelled. */
  ghost function UpdatePoll(s: Store, caller: Option<string>, pollId: Id, patch: PollPatch, today: Day,
                            now: Instant, ids: seq<Id>): (st: Step<Poll>)
    requires PatchIdsFresh(s, patch, ids)
    ensures st.result.Ok? <==>
      pollId in s.polls && caller == Some(s.polls[pollId].createdBy) && |caller.value| > 0
      && PatchAccepted(patch, today)
    ensures st.result.Err? ==> st.store == s
    ensures IsNullOrEmpty(caller) ==> st.result == Err(Unauthenticated)
    // a caller who differs from the creator only in letter case passes the first check but not the second
    ensures pollId in s.polls && caller.Some? && |caller.value| > 0 && PatchAccepted(patch, today)
      && EqualsIgnoreCase(s.polls[pollId].createdBy, caller.value) && s.polls[pollId].createdBy != caller.value
      ==> st.result == Err(Unauthorized)
    ensures st.result.Ok? ==> UpdatedAsPatched(s, st.store, pollId, patch, ids, caller.value, now, st.result.value)
  {
    var poll := PollOrBlank(s.polls, pollId);
    if IsNullOrEmpty(caller) then Step(s, Err(Unauthenticated))
    else if !EqualsIgnoreCase(poll.createdBy, caller.value) then Step(s, Err(Unauthorized))
    else if patch.title.Some? && IsBlank(patch.title.value) then Step(s, Err(InvalidArgument))
    else if patch.endDate.Some? && patch.endDate.value <= today then Step(s, Err(InvalidArgument))
    else if patch.startDate.Some? && patch.endDate.Some? && patch.startDate.value > patch.endDate.value
    then Step(s, Err(InvalidArgument))
    else if poll.createdBy != caller.value then Step(s, Err(Unauthorized))
    else if patch.optionTexts.Some? && |patch.optionTexts.value| < 2 then Step(s, Err(InvalidArgument))
    else
      assert |poll.createdBy| > 0;
      var updated := Patched(poll, patch);
      var t := if patch.optionTexts.Some? then
                 s.(polls := s.polls[pollId := updated],
                    options := ReplaceOptions(s.options, pollId, patch.optionTexts.value, ids),
                    votes := CascadeVotes(s.votes, OptionIdsOf(s.options, pollId)))
               else s.(polls := s.polls[pollId := updated]);
      Step(Audit.Log(t, "Poll updated: " + updated.title, pollId, None, caller, now), Ok(updated))
  }

  /** A new option list becomes exactly the poll's options, fresh and unvoted;
      other polls' options stay as they were, and only votes for the old options go. */
  lemma UpdatePollReplacesOptions(s: Store, caller: Option<string>, pollId: Id, patch: PollPatch, today: Day,
                                  now: Instant, ids: seq<Id>)
    requires PatchIdsFresh(s, patch, ids)
    requires UpdatePoll(s, caller, pollId, patch, today, now, ids).result.Ok?
    requires patch.optionTexts.Some?
    ensures var t := UpdatePoll(s, caller, pollId, patch, today, now, ids).store;
      && HasFreshOptionsFor(t.options, pollId, patch.optionTexts.value)
      && (forall o :: o in s.options && s.options[o].pollId != pollId ==> o in t.options && t.options[o] == s.options[o])
      && (forall o :: o in t.options && t.options[o].pollId != pollId ==> o in s.options)
      && (forall v :: v in t.votes <==> v in s.votes && s.votes[v].optionId !in OptionIdsOf(s.options, pollId))
      && t.checks == s.checks
  {
    var st := UpdatePoll(s, caller, pollId, patch, today, now, ids);
    assert st.store.options == ReplaceOptions(s.options, pollId, patch.optionTexts.value, ids);
    ReplaceOptionsFresh(s.options, pollId, patch.optionTexts.value, ids);
  }

  // ---------------------------------------------------------------------
  // DeletePollAsync and GetPollByIdAsync

  /** The two entries a deletion appends after `before`: "Poll deleted" and
      then "Deleted Poll updated", each naming the poll's title and id and
      updated by the caller. */
  ghost predicate DeletionLogged(before: seq<AuditEntry>, after: seq<AuditEntry>, poll: Poll, caller: string)
    requires |after| == |before| + 2
  {
    && after[|before|].description == "Poll deleted: " + poll.title
    && after[|before|].entityId == poll.id
    && after[|before|].updatedBy == Some(caller)
    && after[|before| + 1].description == "Deleted Poll updated: " + poll.title
    && after[|before| + 1].entityId == poll.id
    && after[|before| + 1].updatedBy == Some(caller)
  }

  /** `PollService.DeletePollAsync` as the code stands: a missing id yields a
      blank poll whose creator is the empty string, so a caller whose claim is
      the empty string "deletes" it (nothing is saved, two audit entries are). */
  ghost function DeletePollAsWritten(s: Store, caller: Option<string>, pollId: Id, now: Instant): (st: Step<bool>)
    ensures st.result.Ok? <==> caller.Some? && PollOrBlank(s.polls, pollId).createdBy == caller.value
    ensures st.result.Err? ==> st.store == s
    ensures st.result.Ok? ==>
      && st.result.value
      && st.store.polls == (if pollId in s.polls then s.polls[pollId := s.polls[pollId].(isDeleted := true)] else s.polls)
      && st.store == s.(polls := st.store.polls, audit := st.store.audit)
      && |st.store.audit| == |s.audit| + 2 && st.store.audit[..|s.audit|] == s.audit
      && DeletionLogged(s.audit, st.store.audit, PollOrBlank(s.polls, pollId), caller.value)
  {
    var poll := PollOrBlank(s.polls, pollId);
    if caller.None? then Step(s, Err(Unauthenticated))
    else if poll.createdBy != caller.value then Step(s, Err(Unauthorized))
    else
      var t := if pollId in s.polls then s.(polls := s.polls[pollId := poll.(isDeleted := true)]) else s;
      var t1 := Audit.Log(t, "Poll deleted: " + poll.title, poll.id, None, caller, now);
      var t2 := Audit.Log(t1, "Deleted Poll updated: " + poll.title, poll.id, None, caller, now);
      Step(t2, Ok(true))
  }

  /** Deleting a poll that does not exist, with an empty caller claim, reports success. */
  lemma DeleteMissingPollReportsSuccess(s: Store, pollId: Id, now: Instant)
    requires pollId !in s.polls
    ensures DeletePollAsWritten(s, Some(""), pollId, now).result == Ok(true)
    ensures DeletePollAsWritten(s, Some(""), pollId, now).store.polls == s.polls
  {
  }

  /** `DeletePollAsync` with the missing poll refused: only the poll's creator
      may delete it, and deleting only sets `IsDeleted`. */
  ghost function DeletePoll(s: Store, caller: Option<string>, pollId: Id, now: Instant): (st: Step<bool>)
    ensures pollId !in s.polls ==> st == Step(s, Err(NotFound))
    ensures st.result.Ok? <==> pollId in s.polls && caller == Some(s.polls[pollId].createdBy)
    ensures st.result.Err? ==> st.store == s
    ensures st.result.Ok? ==>
      && st.result.value
      && st.store.polls == s.polls[pollId := s.polls[pollId].(isDeleted := true)]
      && st.store == s.(polls := st.store.polls, audit := st.store.audit)
      && |st.store.audit| == |s.audit| + 2 && st.store.audit[..|s.audit|] == s.audit
      && DeletionLogged(s.audit, st.store.audit, s.polls[pollId], caller.value)
  {
    if pollId !in s.polls then Step(s, Err(NotFound))
    else DeletePollAsWritten(s, caller, pollId, now)
  }

  /** Deleting twice leaves the polls as deleting once does, and succeeds both times. */
  lemma DeletePollIdempotent(s: Store, caller: Option<string>, pollId: Id, now: Instant, later: Instant)
    requires DeletePoll(s, caller, pollId, now).result.Ok?
    ensures var t := DeletePoll(s, caller, pollId, now).store;
      && DeletePoll(t, caller, pollId, later).result == Ok(true)
      && DeletePoll(t, caller, pollId, later).store.polls == t.polls
  {
    var t := DeletePoll(s, caller, pollId, now).store;
    assert t.polls[pollId].createdBy == s.polls[pollId].createdBy;
    assert t.polls[pollId := t.polls[pollId].(isDeleted := true)] == t.polls;
  }

  /** `PollService.GetPollByIdAsync` as the code stands: a missing id is not
      refused, since the repository's blank poll is not marked deleted. */
  ghost function GetPollByIdAsWritten(s: Store, pollId: Id): (r: Result<PollView>)
    ensures r.Ok? <==> !PollOrBlank(s.polls, pollId).isDeleted
    ensures r.Ok? ==>
      r.value.poll == PollOrBlank(s.polls, pollId) && r.value.options.Keys == OptionIdsOf(s.options, r.value.poll.id)
  {
    var poll := PollOrBlank(s.polls, pollId);
    if poll.isDeleted then Err(NotFound)
    else Ok(PollView(poll, OptionsOf(s.options, poll.id)))
  }

  /** A missing poll comes back as a blank poll instead of an error. */
  lemma GetMissingPollReturnsBlank(s: Store, pollId: Id)
    requires pollId !in s.polls
    ensures GetPollByIdAsWritten(s, pollId).Ok?
    ensures GetPollByIdAsWritten(s, pollId).value.poll == BlankPoll
  {
  }

  /** `GetPollByIdAsync` with the missing poll refused: a stored, undeleted poll
      and its options, or NotFound. */
  ghost function GetPollById(s: Store, pollId: Id): (r: Result<PollView>)
    ensures r.Ok? <==> pollId in s.polls && !s.polls[pollId].isDeleted
    ensures r.Err? ==> r.error == NotFound
    ensures r.Ok? ==>
      && r.value.poll == s.polls[pollId]
      && r.value.options.Keys == OptionIdsOf(s.options, pollId)
      && (forall o :: o in r.value.options ==> r.value.options[o] == s.options[o])
  {
    if pollId !in s.polls || s.polls[pollId].isDeleted then Err(NotFound)
    else Ok(PollView(s.polls[pollId], OptionsOf(s.options, pollId)))
  }

  /** Once deleted, a poll can no longer be read, though its options remain stored. */
  lemma DeletedPollNotFound(s: Store, caller: Option<string>, pollId: Id, now: Instant)
    requires DeletePoll(s, caller, pollId, now).result.Ok?
    ensures GetPollById(DeletePoll(s, caller, pollId, now).store, pollId) == Err(NotFound)
    ensures DeletePoll(s, caller, pollId, now).store.options == s.options
  {
  }

  // ---------------------------------------------------------------------
  // Store validity

  /** Rows built from distinct texts have distinct texts. */
  lemma NewOptionsTextsUnique(p: Id, texts: seq<string>, ids: seq<Id>)
    requires |ids| >= |texts| && Distinct(ids) && Distinct(texts)
    ensures OptionTextsUniquePerPoll(NewOptions(p, texts, ids))
  {
    var added := NewOptions(p, texts, ids);
    NewOptionsShape(p, texts, ids);
    forall a, b | a in added && b in added && a != b && added[a].pollId == added[b].pollId
      ensures added[a].text != added[b].text
    {
      var i :| 0 <= i < |texts| && ids[i] == a;
      var j :| 0 <= j < |texts| && ids[j] == b;
      assert added[a].text == texts[i] && added[b].text == texts[j];
    }
  }

  /** Adding unvoted options with distinct texts to a poll that has no options
      keeps the vote rules. */
  lemma AddOptionsKeepsVoteRules(polls: map<Id, Poll>, base: map<Id, PollOption>, votes: map<Id, PollVote>,
                                 checks: map<Id, VoterCheck>, voters: map<Id, Voter>,
                                 p: Id, added: map<Id, PollOption>)
    requires OptionsBelongToPolls(polls, base) && OptionTextsUniquePerPoll(base)
    requires VotesReferenceOptions(base, votes) && OneCheckPerVoterAndPoll(checks)
    requires ChecksReference(polls, voters, checks) && TalliesMatchVotes(base, votes)
    requires VotesWithinChecks(base, votes, checks)
    requires p in polls && OptionIdsOf(base, p) == {}
    requires OptionTextsUniquePerPoll(added) && OptionsKeyed(base) && OptionsKeyed(added)
    requires forall o :: o in added ==> o !in base && added[o].pollId == p && added[o].voteCount == 0
    ensures var options := base + added;
      && OptionsBelongToPolls(polls, options) && OptionTextsUniquePerPoll(options)
      && VotesReferenceOptions(options, votes) && TalliesMatchVotes(options, votes)
      && VotesWithinChecks(options, votes, checks) && OptionsKeyed(options)
  {
    var options := base + added;
    forall o | o in base ensures base[o].pollId != p {
      assert o !in OptionIdsOf(base, p);
    }
    forall a, b | a in options && b in options && a != b && options[a].pollId == options[b].pollId
      ensures options[a].text != options[b].text
    {
    }
    assert forall v :: v in votes ==> votes[v].optionId in base && votes[v].optionId !in added;
    forall o | o in options ensures options[o].voteCount == |VotesFor(votes, o)| {
      if o in added {
        assert VotesFor(votes, o) == {};
      }
    }
    forall q ensures |VotesOnPoll(options, votes, q)| <= |ChecksOnPoll(checks, q)| {
      assert VotesOnPoll(options, votes, q) == VotesOnPoll(base, votes, q);
    }
  }

  /** Deleting poll `p`'s options together with their votes keeps the vote rules. */
  lemma RemoveOptionsKeepsVoteRules(polls: map<Id, Poll>, options: map<Id, PollOption>, votes: map<Id, PollVote>,
                                    checks: map<Id, VoterCheck>, p: Id)
    requires OptionsBelongToPolls(polls, options) && OptionTextsUniquePerPoll(options)
    requires VotesReferenceOptions(options, votes) && TalliesMatchVotes(options, votes)
    requires VotesWithinChecks(options, votes, checks) && OptionsKeyed(options)
    ensures var kept := map o | o in options && options[o].pollId != p :: options[o];
      var left := CascadeVotes(votes, OptionIdsOf(options, p));
      && OptionsBelongToPolls(polls, kept) && OptionTextsUniquePerPoll(kept)
      && VotesReferenceOptions(kept, left) && TalliesMatchVotes(kept, left)
      && VotesWithinChecks(kept, left, checks) && OptionsKeyed(kept)
      && OptionIdsOf(kept, p) == {}
  {
    var kept := map o | o in options && options[o].pollId != p :: options[o];
    var left := CascadeVotes(votes, OptionIdsOf(options, p));
    forall o | o in kept ensures kept[o].voteCount == |VotesFor(left, o)| {
      assert VotesFor(left, o) == VotesFor(votes, o);
    }
    forall q ensures |VotesOnPoll(kept, left, q)| <= |ChecksOnPoll(checks, q)| {
      assert VotesOnPoll(kept, left, q) <= VotesOnPoll(options, votes, q);
      SubsetCard(VotesOnPoll(kept, left, q), VotesOnPoll(options, votes, q));
    }
  }

  /** A vote on poll `p` survives only when its option is not one of `p`'s. */
  lemma NewPollHasNoOptions(polls: map<Id, Poll>, options: map<Id, PollOption>, p: Id)
    requires OptionsBelongToPolls(polls, options) && p !in polls
    ensures OptionIdsOf(options, p) == {}
  {
    forall o | o in options ensures options[o].pollId != p {
    }
  }

  /** A new poll by a moderator, with new, distinct, unvoted options, keeps the store valid. */
  lemma ValidAfterNewPoll(s: Store, t: Store, poll: Poll, added: map<Id, PollOption>)
    requires Valid(s)
    requires poll.id !in s.polls && poll.createdBy in ModeratorEmails(s.moderators)
    requires OptionTextsUniquePerPoll(added) && OptionsKeyed(added)
    requires forall o :: o in added ==> o !in s.options && added[o].pollId == poll.id && added[o].voteCount == 0
    requires t.polls == s.polls[poll.id := poll] && t.options == s.options + added
    requires t == s.(polls := t.polls, options := t.options, audit := t.audit)
    ensures Valid(t)
  {
    NewPollHasNoOptions(s.polls, s.options, poll.id);
    AddOptionsKeepsVoteRules(t.polls, s.options, s.votes, s.checks, s.voters, poll.id, added);
    assert VoteIntegrity(t);
    assert PollCreatorsAreModerators(t.polls, t.moderators);
  }

  /** Creating a poll keeps the store valid: the poll's creator is a moderator
      and its options are new, distinct and unvoted. */
  lemma AddPollPreservesValid(s: Store, caller: Option<string>, request: Option<NewPollRequest>, today: Day,
                              now: Instant, pollId: Id, ids: seq<Id>)
    requires Valid(s)
    requires pollId !in s.polls
    requires request.Some? && request.value.optionTexts.Some? ==>
      Distinct(request.value.optionTexts.value) && FreshOptionIds(s.options, request.value.optionTexts.value, ids)
    ensures Valid(AddPoll(s, caller, request, today, now, pollId, ids).store)
  {
    var st := AddPoll(s, caller, request, today, now, pollId, ids);
    if st.result.Ok? {
      var texts := request.value.optionTexts.value;
      var added := NewOptions(pollId, texts, ids);
      NewOptionsShape(pollId, texts, ids);
      NewOptionsTextsUnique(pollId, texts, ids);
      NewOptionsFresh(s.options, pollId, texts, ids);
      ValidAfterNewPoll(s, st.store, st.result.value, added);
    }
  }

  /** Rewriting a poll's own fields, keeping its id and creator, keeps the store valid. */
  lemma ValidAfterPollEdit(s: Store, t: Store, pollId: Id, r: Poll)
    requires Valid(s)
    requires pollId in s.polls && r.id == pollId && r.createdBy == s.polls[pollId].createdBy
    requires t.polls == s.polls[pollId := r]
    requires t == s.(polls := t.polls, audit := t.audit)
    ensures Valid(t)
  {
    assert t.polls.Keys == s.polls.Keys;
    assert PollsKeyed(t.polls);
    assert PollCreatorsAreModerators(t.polls, t.moderators);
    assert VoteIntegrity(t);
  }

  /** Rewriting a poll's fields and replacing its options by fresh ones, their
      votes deleted with them, keeps the store valid. */
  lemma ValidAfterOptionReplace(s: Store, t: Store, pollId: Id, r: Poll, texts: seq<string>, ids: seq<Id>)
    requires Valid(s)
    requires pollId in s.polls && r.id == pollId && r.createdBy == s.polls[pollId].createdBy
    requires Distinct(texts) && FreshOptionIds(s.options, texts, ids)
    requires t.polls == s.polls[pollId := r]
    requires t.options == ReplaceOptions(s.options, pollId, texts, ids)
    requires t.votes == CascadeVotes(s.votes, OptionIdsOf(s.options, pollId))
    requires t == s.(polls := t.polls, options := t.options, votes := t.votes, audit := t.audit)
    ensures Valid(t)
  {
    var kept := map o | o in s.options && s.options[o].pollId != pollId :: s.options[o];
    var left := CascadeVotes(s.votes, OptionIdsOf(s.options, pollId));
    var added := NewOptions(pollId, texts, ids);
    assert t.polls.Keys == s.polls.Keys;
    assert PollsKeyed(t.polls);
    assert PollCreatorsAreModerators(t.polls, t.moderators);
    RemoveOptionsKeepsVoteRules(t.polls, s.options, s.votes, s.checks, pollId);
    NewOptionsShape(pollId, texts, ids);
    NewOptionsTextsUnique(pollId, texts, ids);
    assert FreshOptionIds(kept, texts, ids);
    NewOptionsFresh(kept, pollId, texts, ids);
    AddOptionsKeepsVoteRules(t.polls, kept, left, s.checks, s.voters, pollId, added);
    assert t.options == kept + added;
    assert VotesKeyed(t.votes);
    assert VoteIntegrity(t);
  }

  /** Updating a poll keeps the store valid: replaced options take their votes
      with them, while the voter checks stay. */
  lemma UpdatePollPreservesValid(s: Store, caller: Option<string>, pollId: Id, patch: PollPatch, today: Day,
                                 now: Instant, ids: seq<Id>)
    requires Valid(s)
    requires PatchIdsFresh(s, patch, ids)
    ensures Valid(UpdatePoll(s, caller, pollId, patch, today, now, ids).store)
  {
    var st := UpdatePoll(s, caller, pollId, patch, today, now, ids);
    if st.result.Ok? {
      if patch.optionTexts.Some? {
        ValidAfterOptionReplace(s, st.store, pollId, st.result.value, patch.optionTexts.value, ids);
      } else {
        ValidAfterPollEdit(s, st.store, pollId, st.result.value);
      }
    }
  }

  /** Soft-deleting a poll keeps the store valid. */
  lemma DeletePollPreservesValid(s: Store, caller: Option<string>, pollId: Id, now: Instant)
    requires Valid(s)
    ensures Valid(DeletePoll(s, caller, pollId, now).store)
  {
    var st := DeletePoll(s, caller, pollId, now);
    if st.result.Ok? {
      ValidAfterPollEdit(s, st.store, pollId, s.polls[pollId].(isDeleted := true));
    }
  }

  /** Deletion as the code stands keeps the store valid too: for a missing id
      it only appends to the audit log. */
  lemma DeletePollAsWrittenPreservesValid(s: Store, caller: Option<string>, pollId: Id, now: Instant)
    requires Valid(s)
    ensures Valid(DeletePollAsWritten(s, caller, pollId, now).store)
  {
    var st := DeletePollAsWritten(s, caller, pollId, now);
    if st.result.Ok? {
      if pollId in s.polls {
        ValidAfterPollEdit(s, st.store, pollId, s.polls[pollId].(isDeleted := true));
      } else {
        assert st.store == s.(audit := st.store.audit);
      }
    }
  }
}
