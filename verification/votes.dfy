/** Casting a vote (`VoteService.AddVoteAsync`): the caller's voter record gets a
    voter check for the chosen option's poll, the option's tally rises by one,
    and a vote row is stored. */
module Votes {
  import opened Wrappers
  import opened Schema

  /** `AddVoteAsync(optionId)` for the caller named by the NameIdentifier claim.
      It does not look at whether the voter or the poll is soft-deleted, nor at
      the poll's dates. `checkId` and `voteId` are the ids the database assigns. */
  ghost function CastVote(s: Store, caller: Option<string>, optionId: Id, now: Instant,
                          checkId: Id, voteId: Id): (st: Step<PollVote>)
    requires checkId !in s.checks && voteId !in s.votes
    // The three lookups fail, in this order, before anything is saved.
    ensures caller.None? ==> st == Step(s, Err(Unauthenticated))
    ensures caller.Some? && !HasVoterWithEmail(s.voters, caller.value) ==> st == Step(s, Err(NotFound))
    ensures caller.Some? && HasVoterWithEmail(s.voters, caller.value) && optionId !in s.options
      ==> st == Step(s, Err(NotFound))
    // A check for (voter, poll) refuses the vote, whichever option of the poll is chosen.
    ensures caller.Some? && HasVoterWithEmail(s.voters, caller.value) && optionId in s.options
      && HasChecked(s.checks, VoterWithEmail(s.voters, caller.value), s.options[optionId].pollId)
      ==> st == Step(s, Err(AlreadyVoted))
    // Every voter who has not yet voted in the option's poll gets the vote recorded.
    ensures st.result.Ok? <==>
      caller.Some? && HasVoterWithEmail(s.voters, caller.value) && optionId in s.options
      && !HasChecked(s.checks, VoterWithEmail(s.voters, caller.value), s.options[optionId].pollId)
    ensures st.result.Err? ==> st.store == s
    ensures st.result.Ok? ==> Voted(s, st.store, caller.value, optionId, now, checkId, voteId, st.result.value)
  {
    if caller.None? then Step(s, Err(Unauthenticated))
    else if !HasVoterWithEmail(s.voters, caller.value) then Step(s, Err(NotFound))
    else if optionId !in s.options then Step(s, Err(NotFound))
    else
      var voter := VoterWithEmail(s.voters, caller.value);
      var poll := s.options[optionId].pollId;
      if HasChecked(s.checks, voter, poll) then Step(s, Err(AlreadyVoted))
      else
        var check := VoterCheck(checkId, voter, poll, true, now);
        var option := s.options[optionId].(voteCount := s.options[optionId].voteCount + 1);
        var vote := PollVote(voteId, optionId, now);
        Step(s.(checks := s.checks[checkId := check],
                options := s.options[optionId := option],
                votes := s.votes[voteId := vote]),
             Ok(vote))
  }

  /** What a successful vote by `email` for `optionId` changes, and that it changes nothing else. */
  ghost predicate Voted(s: Store, t: Store, email: string, optionId: Id, now: Instant,
                        checkId: Id, voteId: Id, vote: PollVote)
  {
    && HasVoterWithEmail(s.voters, email)
    && optionId in s.options
    && var voter := VoterWithEmail(s.voters, email);
    && var poll := s.options[optionId].pollId;
    // exactly one new voter check, for (voter, poll), marked as voted
    && t.checks.Keys == s.checks.Keys + {checkId}
    && (forall c :: c in s.checks ==> t.checks[c] == s.checks[c])
    && t.checks[checkId] == VoterCheck(checkId, voter, poll, true, now)
    // the chosen option's tally rises by one, every other option is untouched
    && t.options.Keys == s.options.Keys
    && t.options[optionId] == s.options[optionId].(voteCount := s.options[optionId].voteCount + 1)
    && (forall o :: o in s.options && o != optionId ==> t.options[o] == s.options[o])
    // exactly one new vote, for the chosen option, and it is the one returned
    && t.votes == s.votes[voteId := vote]
    && vote == PollVote(voteId, optionId, now)
    // the rest of the store is as it was
    && t == s.(checks := t.checks, options := t.options, votes := t.votes)
  }

  // ---------------------------------------------------------------------
  // Properties

  /** A voter can vote in a poll once: after a successful vote, every further
      vote by the same caller on any option of that poll is refused. */
  lemma SecondVoteInPollRefused(s: Store, caller: Option<string>, optionId: Id, now: Instant,
                                checkId: Id, voteId: Id,
                                other: Id, later: Instant, checkId2: Id, voteId2: Id)
    requires checkId !in s.checks && voteId !in s.votes
    requires CastVote(s, caller, optionId, now, checkId, voteId).result.Ok?
    requires var t := CastVote(s, caller, optionId, now, checkId, voteId).store;
      other in t.options && t.options[other].pollId == t.options[optionId].pollId
      && checkId2 !in t.checks && voteId2 !in t.votes
    requires VoterEmailsUnique(s.voters)
    ensures var t := CastVote(s, caller, optionId, now, checkId, voteId).store;
      CastVote(t, caller, other, later, checkId2, voteId2) == Step(t, Err(AlreadyVoted))
  {
    var t := CastVote(s, caller, optionId, now, checkId, voteId).store;
    var voter := VoterWithEmail(s.voters, caller.value);
    assert t.voters == s.voters;
    assert VoterWithEmail(t.voters, caller.value) == voter;
    assert t.checks[checkId].voterId == voter && t.checks[checkId].pollId == t.options[other].pollId;
    assert HasChecked(t.checks, voter, t.options[other].pollId);
  }

  /** Storing `vote` adds one to the count of votes for its option and leaves
      every other option's count alone. */
  lemma VotesForAdd(votes: map<Id, PollVote>, vote: PollVote, x: Id)
    requires vote.id !in votes
    ensures |VotesFor(votes[vote.id := vote], x)| == |VotesFor(votes, x)| + (if x == vote.optionId then 1 else 0)
  {
    var after := VotesFor(votes[vote.id := vote], x);
    var before := VotesFor(votes, x);
    if x == vote.optionId {
      assert after == before + {vote.id};
    } else {
      assert after == before;
    }
  }

  /** Raising the tally of the option a new vote is for keeps tallies equal to vote counts. */
  lemma TalliesAfterVote(options: map<Id, PollOption>, votes: map<Id, PollVote>, vote: PollVote)
    requires TalliesMatchVotes(options, votes)
    requires vote.optionId in options && vote.id !in votes
    ensures TalliesMatchVotes(
      options[vote.optionId := options[vote.optionId].(voteCount := options[vote.optionId].voteCount + 1)],
      votes[vote.id := vote])
  {
    var o2 := options[vote.optionId := options[vote.optionId].(voteCount := options[vote.optionId].voteCount + 1)];
    forall o | o in o2 ensures o2[o].voteCount == |VotesFor(votes[vote.id := vote], o)| {
      VotesForAdd(votes, vote, o);
    }
  }

  /** A check for a (voter, poll) pair that has none keeps checks unique per pair. */
  lemma OneCheckAfterVote(checks: map<Id, VoterCheck>, check: VoterCheck)
    requires OneCheckPerVoterAndPoll(checks)
    requires check.id !in checks && !HasChecked(checks, check.voterId, check.pollId)
    ensures OneCheckPerVoterAndPoll(checks[check.id := check])
  {
    var t := checks[check.id := check];
    forall a, b | a in t && b in t && t[a].voterId == t[b].voterId && t[a].pollId == t[b].pollId
      ensures a == b
    {
    }
  }

  /** Raising an option's tally leaves the votes counted towards each poll as
      they were, and a new vote for that option counts towards its poll only. */
  lemma VotesOnPollAfterVote(options: map<Id, PollOption>, votes: map<Id, PollVote>, vote: PollVote, p: Id)
    requires vote.optionId in options && vote.id !in votes
    ensures VotesOnPoll(
      options[vote.optionId := options[vote.optionId].(voteCount := options[vote.optionId].voteCount + 1)],
      votes[vote.id := vote], p)
      == VotesOnPoll(options, votes, p) + (if p == options[vote.optionId].pollId then {vote.id} else {})
  {
    var o2 := options[vote.optionId := options[vote.optionId].(voteCount := options[vote.optionId].voteCount + 1)];
    assert forall o :: o in options ==> o in o2 && o2[o].pollId == options[o].pollId;
  }

  lemma ChecksOnPollAfterVote(checks: map<Id, VoterCheck>, check: VoterCheck, p: Id)
    requires check.id !in checks
    ensures ChecksOnPoll(checks[check.id := check], p)
      == ChecksOnPoll(checks, p) + (if p == check.pollId then {check.id} else {})
  {
  }

  /** A vote and a check stored together for the same poll keep every poll's
      votes within its checks. */
  lemma WithinChecksAfterVote(options: map<Id, PollOption>, votes: map<Id, PollVote>,
                              checks: map<Id, VoterCheck>, vote: PollVote, check: VoterCheck)
    requires VotesWithinChecks(options, votes, checks)
    requires vote.optionId in options && vote.id !in votes && check.id !in checks
    requires check.pollId == options[vote.optionId].pollId
    ensures VotesWithinChecks(
      options[vote.optionId := options[vote.optionId].(voteCount := options[vote.optionId].voteCount + 1)],
      votes[vote.id := vote], checks[check.id := check])
  {
    var o2 := options[vote.optionId := options[vote.optionId].(voteCount := options[vote.optionId].voteCount + 1)];
    var v2 := votes[vote.id := vote];
    var c2 := checks[check.id := check];
    forall p ensures |VotesOnPoll(o2, v2, p)| <= |ChecksOnPoll(c2, p)| {
      VotesOnPollAfterVote(options, votes, vote, p);
      ChecksOnPollAfterVote(checks, check, p);
      assert vote.id !in VotesOnPoll(options, votes, p);
      assert check.id !in ChecksOnPoll(checks, p);
      assert |VotesOnPoll(options, votes, p)| <= |ChecksOnPoll(checks, p)|;
    }
  }

  /** The store after a vote: one new check, one new vote, and the option's tally raised. */
  function AfterVote(s: Store, check: VoterCheck, vote: PollVote): Store
    requires vote.optionId in s.options
  {
    s.(checks := s.checks[check.id := check],
       options := s.options[vote.optionId := s.options[vote.optionId].(voteCount := s.options[vote.optionId].voteCount + 1)],
       votes := s.votes[vote.id := vote])
  }

  lemma VoteIntegrityAfterVote(s: Store, check: VoterCheck, vote: PollVote)
    requires VoteIntegrity(s)
    requires vote.optionId in s.options && vote.id !in s.votes && check.id !in s.checks
    requires check.pollId == s.options[vote.optionId].pollId && check.voterId in s.voters
    requires !HasChecked(s.checks, check.voterId, check.pollId)
    ensures VoteIntegrity(AfterVote(s, check, vote))
  {
    var t := AfterVote(s, check, vote);
    OneCheckAfterVote(s.checks, check);
    TalliesAfterVote(s.options, s.votes, vote);
    WithinChecksAfterVote(s.options, s.votes, s.checks, vote, check);
    assert OptionTextsUniquePerPoll(t.options);
    assert OptionsBelongToPolls(t.polls, t.options);
    assert VotesReferenceOptions(t.options, t.votes);
    assert ChecksReference(t.polls, t.voters, t.checks);
  }

  /** Storing a new check and a new vote for the same poll, with the option's
      tally raised, keeps a valid store valid. */
  lemma ValidAfterVote(s: Store, check: VoterCheck, vote: PollVote)
    requires Valid(s)
    requires vote.optionId in s.options && vote.id !in s.votes && check.id !in s.checks
    requires check.pollId == s.options[vote.optionId].pollId && check.voterId in s.voters
    requires !HasChecked(s.checks, check.voterId, check.pollId)
    ensures Valid(AfterVote(s, check, vote))
  {
    var t := AfterVote(s, check, vote);
    VoteIntegrityAfterVote(s, check, vote);
    assert ChecksKeyed(t.checks);
    assert VotesKeyed(t.votes);
    assert OptionsKeyed(t.options);
  }

  /** A vote keeps every rule of a valid store, in particular one check per
      (voter, poll), tallies equal to vote counts, and no poll with more votes
      than checks. */
  lemma CastVotePreservesValid(s: Store, caller: Option<string>, optionId: Id, now: Instant,
                               checkId: Id, voteId: Id)
    requires Valid(s)
    requires checkId !in s.checks && voteId !in s.votes
    ensures Valid(CastVote(s, caller, optionId, now, checkId, voteId).store)
  {
    var st := CastVote(s, caller, optionId, now, checkId, voteId);
    if st.result.Ok? {
      var voter := VoterWithEmail(s.voters, caller.value);
      var poll := s.options[optionId].pollId;
      var check := VoterCheck(checkId, voter, poll, true, now);
      var vote := PollVote(voteId, optionId, now);
      assert st.store == AfterVote(s, check, vote);
      ValidAfterVote(s, check, vote);
    }
  }
}
