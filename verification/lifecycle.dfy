/** The services side by side: every state-changing call as one operation on
    the shared store, and the store's integrity carried through any sequence
    of calls. */
module Lifecycle {
  import opened Wrappers
  import opened Schema
  import Lists
  import Votes
  import Polls
  import Moderators
  import Voters
  import Messages
  import Authentication
  import Admins

  // Each group below collects the calls of one service, with the caller, the
  // clock and the ids the database would assign as arguments. A group's
  // `Admissible` says the ids and token strings a call brings are new to the
  // store (the database generates them, so they never collide) and that a new
  // option set has distinct texts (the unique index would refuse it otherwise).

  // ---------------------------------------------------------------------
  // Votes and polls

  datatype PollOp =
    | CastVote(caller: Option<string>, optionId: Id, now: Instant, checkId: Id, voteId: Id)
    | AddPoll(caller: Option<string>, request: Option<Polls.NewPollRequest>, today: Day, now: Instant,
              pollId: Id, optionIds: seq<Id>)
    | UpdatePoll(caller: Option<string>, pollId: Id, patch: Polls.PollPatch, today: Day, now: Instant,
                 optionIds: seq<Id>)
    | DeletePoll(caller: Option<string>, pollId: Id, now: Instant)
    | DeletePollAsWritten(caller: Option<string>, pollId: Id, now: Instant)

  ghost predicate PollAdmissible(s: Store, op: PollOp) {
    match op
    case CastVote(_, _, _, checkId, voteId) => checkId !in s.checks && voteId !in s.votes
    case AddPoll(_, request, _, _, pollId, ids) =>
      && pollId !in s.polls
      && (request.Some? && request.value.optionTexts.Some? ==>
            Lists.Distinct(request.value.optionTexts.value)
            && Polls.FreshOptionIds(s.options, request.value.optionTexts.value, ids))
    case UpdatePoll(_, _, patch, _, _, ids) => Polls.PatchIdsFresh(s, patch, ids)
    case DeletePoll(_, _, _) => true
    case DeletePollAsWritten(_, _, _) => true
  }

  ghost function ApplyPoll(s: Store, op: PollOp): Store
    requires PollAdmissible(s, op)
  {
    match op
    case CastVote(caller, optionId, now, checkId, voteId) =>
      Votes.CastVote(s, caller, optionId, now, checkId, voteId).store
    case AddPoll(caller, request, today, now, pollId, ids) =>
      Polls.AddPoll(s, caller, request, today, now, pollId, ids).store
    case UpdatePoll(caller, pollId, patch, today, now, ids) =>
      Polls.UpdatePoll(s, caller, pollId, patch, today, now, ids).store
    case DeletePoll(caller, pollId, now) => Polls.DeletePoll(s, caller, pollId, now).store
    case DeletePollAsWritten(caller, pollId, now) => Polls.DeletePollAsWritten(s, caller, pollId, now).store
  }

  lemma ApplyPollPreservesValid(s: Store, op: PollOp)
    requires Valid(s) && PollAdmissible(s, op)
    ensures Valid(ApplyPoll(s, op))
  {
    match op
    case CastVote(caller, optionId, now, checkId, voteId) =>
      Votes.CastVotePreservesValid(s, caller, optionId, now, checkId, voteId);
    case AddPoll(caller, request, today, now, pollId, ids) =>
      Polls.AddPollPreservesValid(s, caller, request, today, now, pollId, ids);
    case UpdatePoll(caller, pollId, patch, today, now, ids) =>
      Polls.UpdatePollPreservesValid(s, caller, pollId, patch, today, now, ids);
    case DeletePoll(caller, pollId, now) => Polls.DeletePollPreservesValid(s, caller, pollId, now);
    case DeletePollAsWritten(caller, pollId, now) => Polls.DeletePollAsWrittenPreservesValid(s, caller, pollId, now);
  }

  // ---------------------------------------------------------------------
  // Moderators and admins

  datatype StaffOp =
    | AddModerator(caller: Option<string>, request: Option<Moderators.NewModeratorRequest>,
                   passwordHash: string, now: Instant, moderatorId: Id)
    | DeleteModerator(caller: Option<string>, moderatorId: Id, now: Instant)
    | AddAdmin(adminRequest: Option<Admins.NewAdminRequest>, configuredKey: Option<string>, passwordHash: string,
               adminId: Id)

  ghost predicate StaffAdmissible(s: Store, op: StaffOp) {
    match op
    case AddModerator(_, _, _, _, moderatorId) => moderatorId !in s.moderators
    case DeleteModerator(_, _, _) => true
    case AddAdmin(_, _, _, adminId) => adminId !in s.admins
  }

  ghost function ApplyStaff(s: Store, op: StaffOp): Store
    requires StaffAdmissible(s, op)
  {
    match op
    case AddModerator(caller, request, passwordHash, now, moderatorId) =>
      Moderators.AddModerator(s, caller, request, passwordHash, now, moderatorId).store
    case DeleteModerator(caller, moderatorId, now) => Moderators.DeleteModerator(s, caller, moderatorId, now).store
    case AddAdmin(request, configuredKey, passwordHash, adminId) =>
      Admins.AddAdmin(s, request, configuredKey, passwordHash, adminId).store
  }

  lemma ApplyStaffPreservesValid(s: Store, op: StaffOp)
    requires Valid(s) && StaffAdmissible(s, op)
    ensures Valid(ApplyStaff(s, op))
  {
    match op
    case AddModerator(caller, request, passwordHash, now, moderatorId) =>
      Moderators.AddModeratorPreservesValid(s, caller, request, passwordHash, now, moderatorId);
    case DeleteModerator(caller, moderatorId, now) =>
      Moderators.DeleteModeratorPreservesValid(s, caller, moderatorId, now);
    case AddAdmin(request, configuredKey, passwordHash, adminId) =>
      Admins.AddAdminPreservesValid(s, request, configuredKey, passwordHash, adminId);
  }

  // ---------------------------------------------------------------------
  // Voters

  datatype VoterOp =
    | WhitelistVoterEmails(claim: Option<IdClaim>, emails: Option<seq<string>>, validEmail: string -> bool,
                           now: Instant)
    | AddVoter(request: Option<Voters.NewVoterRequest>, passwordHash: string, voterId: Id)
    | UpdateVoterAsModerator(claim: Option<IdClaim>, voterId: Id, patch: Voters.VoterPatch, now: Instant)
    | UpdateVoter(claim: Option<IdClaim>, newPassword: Option<string>, patch: Voters.VoterPatch,
                  passwordHash: string)
    | DeleteVoter(claim: Option<IdClaim>, voterId: Id)

  ghost predicate VoterAdmissible(s: Store, op: VoterOp) {
    op.AddVoter? ==> op.voterId !in s.voters
  }

  ghost function ApplyVoter(s: Store, op: VoterOp): Store
    requires VoterAdmissible(s, op)
  {
    match op
    case WhitelistVoterEmails(claim, emails, validEmail, now) =>
      Voters.WhitelistVoterEmails(s, claim, emails, validEmail, now).store
    case AddVoter(request, passwordHash, voterId) => Voters.AddVoter(s, request, passwordHash, voterId).store
    case UpdateVoterAsModerator(claim, voterId, patch, now) =>
      Voters.UpdateVoterAsModerator(s, claim, voterId, patch, now).store
    case UpdateVoter(claim, newPassword, patch, passwordHash) =>
      Voters.UpdateVoter(s, claim, newPassword, patch, passwordHash).store
    case DeleteVoter(claim, voterId) => Voters.DeleteVoter(s, claim, voterId).store
  }

  lemma ApplyVoterPreservesValid(s: Store, op: VoterOp)
    requires Valid(s) && VoterAdmissible(s, op)
    ensures Valid(ApplyVoter(s, op))
  {
    match op
    case WhitelistVoterEmails(claim, emails, validEmail, now) =>
      Voters.WhitelistPreservesValid(s, claim, emails, validEmail, now);
    case AddVoter(request, passwordHash, voterId) => Voters.AddVoterPreservesValid(s, request, passwordHash, voterId);
    case UpdateVoterAsModerator(claim, voterId, patch, now) =>
      Voters.UpdateVoterAsModeratorPreservesValid(s, claim, voterId, patch, now);
    case UpdateVoter(claim, newPassword, patch, passwordHash) =>
      Voters.UpdateVoterPreservesValid(s, claim, newPassword, patch, passwordHash);
    case DeleteVoter(claim, voterId) => Voters.DeleteVoterPreservesValid(s, claim, voterId);
  }

  // ---------------------------------------------------------------------
  // Messages

  datatype MessageOp =
    | AddMessage(sender: Option<string>, request: Messages.MessageRequest, messageId: Id, now: Instant)
    | DeleteMessage(sender: Option<string>, messageId: Id)
    | ClearUserMessage(claim: Option<IdClaim>, messageId: Id)
    | ClearAllMessages(claim: Option<IdClaim>)
    | CleanupOldUserMessages(now: Instant, expiryDays: int)

  ghost predicate MessageAdmissible(s: Store, op: MessageOp) {
    op.AddMessage? ==> Messages.FreshMessageId(s, op.messageId)
  }

  ghost function ApplyMessage(s: Store, op: MessageOp): Store
    requires MessageAdmissible(s, op)
  {
    match op
    case AddMessage(sender, request, messageId, now) => Messages.AddMessage(s, sender, request, messageId, now).store
    case DeleteMessage(sender, messageId) => Messages.DeleteMessage(s, sender, messageId).store
    case ClearUserMessage(claim, messageId) => Messages.ClearUserMessage(s, claim, messageId).store
    case ClearAllMessages(claim) => Messages.ClearAllMessages(s, claim).store
    case CleanupOldUserMessages(now, expiryDays) => Messages.CleanupOldUserMessages(s, now, expiryDays)
  }

  lemma ApplyMessagePreservesValid(s: Store, op: MessageOp)
    requires Valid(s) && MessageAdmissible(s, op)
    ensures Valid(ApplyMessage(s, op))
  {
    match op
    case AddMessage(sender, request, messageId, now) =>
      Messages.AddMessagePreservesValid(s, sender, request, messageId, now);
    case DeleteMessage(sender, messageId) => Messages.DeleteMessagePreservesValid(s, sender, messageId);
    case ClearUserMessage(claim, messageId) => Messages.ClearingPreservesValid(s, claim, messageId, 0, 0);
    case ClearAllMessages(claim) => Messages.ClearingPreservesValid(s, claim, 0, 0, 0);
    case CleanupOldUserMessages(now, expiryDays) => Messages.ClearingPreservesValid(s, None, 0, now, expiryDays);
  }

  // ---------------------------------------------------------------------
  // Sessions

  datatype SessionOp =
    | Login(username: string, password: string, verify: (string, string) -> bool, tokenId: Id, token: string,
            now: Instant)
    | RefreshLogin(token: string, tokenId: Id, newToken: string, now: Instant)
    | Logout(token: string)
    | SendMagicLink(email: string, tokenId: Id, token: string, now: Instant)
    | VerifyMagicLink(email: string, token: string, tokenId: Id, newToken: string, now: Instant)

  ghost predicate SessionAdmissible(s: Store, op: SessionOp) {
    match op
    case Login(_, _, _, tokenId, token, _) => Authentication.FreshRefreshToken(s, tokenId, token)
    case RefreshLogin(_, tokenId, newToken, _) => Authentication.FreshRefreshToken(s, tokenId, newToken)
    case Logout(_) => true
    case SendMagicLink(_, tokenId, _, _) => tokenId !in s.magicTokens
    case VerifyMagicLink(_, _, tokenId, newToken, _) => Authentication.FreshRefreshToken(s, tokenId, newToken)
  }

  ghost function ApplySession(s: Store, op: SessionOp): Store
    requires SessionAdmissible(s, op)
  {
    match op
    case Login(username, password, verify, tokenId, token, now) =>
      Authentication.Login(s, username, password, verify, tokenId, token, now).store
    case RefreshLogin(token, tokenId, newToken, now) =>
      Authentication.RefreshLogin(s, token, tokenId, newToken, now).store
    case Logout(token) => Authentication.Logout(s, token).store
    case SendMagicLink(email, tokenId, token, now) => Authentication.SendMagicLink(s, email, tokenId, token, now)
    case VerifyMagicLink(email, token, tokenId, newToken, now) =>
      Authentication.VerifyMagicLink(s, email, token, tokenId, newToken, now).store
  }

  lemma ApplySessionPreservesValid(s: Store, op: SessionOp)
    requires Valid(s) && SessionAdmissible(s, op)
    ensures Valid(ApplySession(s, op))
  {
    match op
    case Login(username, password, verify, tokenId, token, now) =>
      Authentication.LoginPreservesValid(s, username, password, verify, tokenId, token, now);
    case RefreshLogin(token, tokenId, newToken, now) =>
      Authentication.RefreshLoginPreservesValid(s, token, tokenId, newToken, now);
    case Logout(token) => Authentication.LogoutPreservesValid(s, token);
    case SendMagicLink(email, tokenId, token, now) =>
      Authentication.SendMagicLinkPreservesValid(s, email, tokenId, token, now);
    case VerifyMagicLink(email, token, tokenId, newToken, now) =>
      Authentication.VerifyMagicLinkPreservesValid(s, email, token, tokenId, newToken, now);
  }

  // ---------------------------------------------------------------------
  // Any call, and sequences of calls

  /** One service call that can change the store. */
  datatype Op =
    | PollCall(pollOp: PollOp)
    | StaffCall(staffOp: StaffOp)
    | VoterCall(voterOp: VoterOp)
    | MessageCall(messageOp: MessageOp)
    | SessionCall(sessionOp: SessionOp)

  ghost predicate Admissible(s: Store, op: Op) {
    match op
    case PollCall(o) => PollAdmissible(s, o)
    case StaffCall(o) => StaffAdmissible(s, o)
    case VoterCall(o) => VoterAdmissible(s, o)
    case MessageCall(o) => MessageAdmissible(s, o)
    case SessionCall(o) => SessionAdmissible(s, o)
  }

  /** The store after `op`, whatever the call reports. */
  ghost function Apply(s: Store, op: Op): Store
    requires Admissible(s, op)
  {
    match op
    case PollCall(o) => ApplyPoll(s, o)
    case StaffCall(o) => ApplyStaff(s, o)
    case VoterCall(o) => ApplyVoter(s, o)
    case MessageCall(o) => ApplyMessage(s, o)
    case SessionCall(o) => ApplySession(s, o)
  }

  /** Every call keeps the store valid, whether it succeeds or fails. */
  lemma ApplyPreservesValid(s: Store, op: Op)
    requires Valid(s) && Admissible(s, op)
    ensures Valid(Apply(s, op))
  {
    match op
    case PollCall(o) => ApplyPollPreservesValid(s, o);
    case StaffCall(o) => ApplyStaffPreservesValid(s, o);
    case VoterCall(o) => ApplyVoterPreservesValid(s, o);
    case MessageCall(o) => ApplyMessagePreservesValid(s, o);
    case SessionCall(o) => ApplySessionPreservesValid(s, o);
  }

  /** Every call of `ops`, made in order from `s`, is admissible where it is made. */
  ghost predicate Runnable(s: Store, ops: seq<Op>)
    decreases |ops|
  {
    |ops| == 0 || (Admissible(s, ops[0]) && Runnable(Apply(s, ops[0]), ops[1..]))
  }

  /** The store after the calls `ops`, in order. */
  ghost function Run(s: Store, ops: seq<Op>): Store
    requires Runnable(s, ops)
    decreases |ops|
  {
    if |ops| == 0 then s else Run(Apply(s, ops[0]), ops[1..])
  }

  /** Any sequence of calls from a valid store leaves it valid. */
  lemma {:induction false} RunPreservesValid(s: Store, ops: seq<Op>)
    requires Valid(s) && Runnable(s, ops)
    ensures Valid(Run(s, ops))
    decreases |ops|
  {
    if |ops| > 0 {
      ApplyPreservesValid(s, ops[0]);
      RunPreservesValid(Apply(s, ops[0]), ops[1..]);
    }
  }

  /** Every store the services can build from nothing is valid. */
  lemma ReachableStoresAreValid(ops: seq<Op>)
    requires Runnable(EmptyStore(), ops)
    ensures Valid(Run(EmptyStore(), ops))
  {
    EmptyStoreValid();
    RunPreservesValid(EmptyStore(), ops);
  }
}
