/** The entities of the election store, the store itself as an immutable
    record of keyed tables, and the integrity rules the database schema
    (unique indexes, foreign keys, cascades) and the services keep. */
module Schema {
  import opened Wrappers

  /** A Guid. */
  type Id = int
  /** `Guid.Empty`, the id of an entity that was never saved. */
  const EmptyId: Id := 0
  /** A `DateTime`, in seconds. */
  type Instant = int
  /** A `DateOnly`, as a day number. */
  type Day = int

  const SecondsPerMinute: int := 60
  const SecondsPerDay: int := 86400

  datatype Poll = Poll(
    id: Id,
    title: string,
    description: string,
    createdBy: string,      // CreatedByEmail
    startDate: Day,
    endDate: Day,
    isDeleted: bool)

  datatype PollOption = PollOption(id: Id, pollId: Id, text: string, voteCount: int, isDeleted: bool)

  /** The marker that a voter has voted in a poll. */
  datatype VoterCheck = VoterCheck(id: Id, voterId: Id, pollId: Id, hasVoted: bool, votedAt: Instant)

  datatype PollVote = PollVote(id: Id, optionId: Id, timestamp: Instant)

  datatype Moderator = Moderator(id: Id, name: string, email: string, isDeleted: bool)

  datatype Voter = Voter(id: Id, name: string, email: string, age: int, moderatorId: Id, isDeleted: bool)

  datatype Admin = Admin(id: Id, name: string, email: string)

  /** A login account, keyed by `Username` (the account's e-mail). */
  datatype User = User(username: string, passwordHash: string, role: string, userId: Id)

  /** A whitelisted voter e-mail, keyed by the e-mail. */
  datatype VoterEmail = VoterEmail(email: string, moderatorId: Id, isUsed: bool, createdAt: Instant)

  datatype Message = Message(id: Id, text: string, from: Id, pollId: Option<Id>, to: Option<Id>, sentAt: Instant)

  /** The link that puts a message in one user's inbox. */
  datatype UserMessage = UserMessage(messageId: Id, userId: Id, createdAt: Instant)

  datatype RefreshToken = RefreshToken(id: Id, username: string, token: string, expiresAt: Instant, isRevoked: bool)

  datatype MagicToken = MagicToken(id: Id, email: string, token: string, expiresAt: Instant, isUsed: bool)

  datatype PollFile = PollFile(id: Id, filename: string, fileType: string, content: Option<seq<bv8>>, pollId: Id)

  datatype AuditEntry = AuditEntry(
    description: string,
    entityId: Id,
    createdBy: Option<string>,
    createdAt: Instant,
    updatedBy: Option<string>,
    updatedAt: Option<Instant>)

  /** The key of an inbox link: (MessageId, UserId), the pair its unique index is on. */
  type LinkKey = (Id, Id)

  datatype Store = Store(
    polls: map<Id, Poll>,
    options: map<Id, PollOption>,
    checks: map<Id, VoterCheck>,
    votes: map<Id, PollVote>,
    moderators: map<Id, Moderator>,
    voters: map<Id, Voter>,
    admins: map<Id, Admin>,
    users: map<string, User>,
    whitelist: map<string, VoterEmail>,
    messages: map<Id, Message>,
    inbox: map<LinkKey, UserMessage>,
    refreshTokens: map<Id, RefreshToken>,
    magicTokens: map<Id, MagicToken>,
    files: map<Id, PollFile>,
    audit: seq<AuditEntry>)

  /** The caller's `UserId` claim: its text and the Guid it parses to. A claim
      that is missing or does not parse is `None` where this is used. */
  datatype IdClaim = IdClaim(text: string, id: Id)

  /** What a service call leaves behind: the store after it (changed even on some
      failures, since the services save step by step) and its outcome. */
  datatype Step<T> = Step(store: Store, result: Result<T>)

  // ---------------------------------------------------------------------
  // Derived sets

  /** The votes cast for option `o`. */
  ghost function VotesFor(votes: map<Id, PollVote>, o: Id): set<Id> {
    set v | v in votes && votes[v].optionId == o
  }

  /** The votes cast for any option of poll `p`. */
  ghost function VotesOnPoll(options: map<Id, PollOption>, votes: map<Id, PollVote>, p: Id): set<Id> {
    set v | v in votes && votes[v].optionId in options && options[votes[v].optionId].pollId == p
  }

  /** The voter checks recorded for poll `p`. */
  ghost function ChecksOnPoll(checks: map<Id, VoterCheck>, p: Id): set<Id> {
    set c | c in checks && checks[c].pollId == p
  }

  ghost function ModeratorEmails(moderators: map<Id, Moderator>): set<string> {
    set m | m in moderators :: moderators[m].email
  }

  // ---------------------------------------------------------------------
  // Integrity rules on single tables or pairs of tables

  // Every entity is stored under its own key.
  ghost predicate PollsKeyed(m: map<Id, Poll>) { forall k :: k in m ==> m[k].id == k }
  ghost predicate OptionsKeyed(m: map<Id, PollOption>) { forall k :: k in m ==> m[k].id == k }
  ghost predicate ChecksKeyed(m: map<Id, VoterCheck>) { forall k :: k in m ==> m[k].id == k }
  ghost predicate VotesKeyed(m: map<Id, PollVote>) { forall k :: k in m ==> m[k].id == k }
  ghost predicate ModeratorsKeyed(m: map<Id, Moderator>) { forall k :: k in m ==> m[k].id == k }
  ghost predicate VotersKeyed(m: map<Id, Voter>) { forall k :: k in m ==> m[k].id == k }
  ghost predicate AdminsKeyed(m: map<Id, Admin>) { forall k :: k in m ==> m[k].id == k }
  ghost predicate UsersKeyed(m: map<string, User>) { forall k :: k in m ==> m[k].username == k }
  ghost predicate WhitelistKeyed(m: map<string, VoterEmail>) { forall k :: k in m ==> m[k].email == k }
  ghost predicate MessagesKeyed(m: map<Id, Message>) { forall k :: k in m ==> m[k].id == k }
  ghost predicate InboxKeyed(m: map<LinkKey, UserMessage>) {
    forall k :: k in m ==> m[k].messageId == k.0 && m[k].userId == k.1
  }
  ghost predicate RefreshTokensKeyed(m: map<Id, RefreshToken>) { forall k :: k in m ==> m[k].id == k }
  ghost predicate MagicTokensKeyed(m: map<Id, MagicToken>) { forall k :: k in m ==> m[k].id == k }

  ghost predicate IdsAreKeys(s: Store) {
    && PollsKeyed(s.polls) && OptionsKeyed(s.options) && ChecksKeyed(s.checks) && VotesKeyed(s.votes)
    && ModeratorsKeyed(s.moderators) && VotersKeyed(s.voters) && AdminsKeyed(s.admins)
    && UsersKeyed(s.users) && WhitelistKeyed(s.whitelist) && MessagesKeyed(s.messages)
    && InboxKeyed(s.inbox) && RefreshTokensKeyed(s.refreshTokens) && MagicTokensKeyed(s.magicTokens)
  }

  /** Foreign key PollOption.PollId -> Poll. */
  ghost predicate OptionsBelongToPolls(polls: map<Id, Poll>, options: map<Id, PollOption>) {
    forall o :: o in options ==> options[o].pollId in polls
  }

  /** Unique index on (PollId, OptionText). */
  ghost predicate OptionTextsUniquePerPoll(options: map<Id, PollOption>) {
    forall a, b :: a in options && b in options && a != b && options[a].pollId == options[b].pollId
      ==> options[a].text != options[b].text
  }

  /** Foreign key PollVote.PollOptionId -> PollOption (cascading on delete). */
  ghost predicate VotesReferenceOptions(options: map<Id, PollOption>, votes: map<Id, PollVote>) {
    forall v :: v in votes ==> votes[v].optionId in options
  }

  /** Unique index on (VoterId, PollId): at most one voter check per voter and poll. */
  ghost predicate OneCheckPerVoterAndPoll(checks: map<Id, VoterCheck>) {
    forall a, b ::
      a in checks && b in checks && checks[a].voterId == checks[b].voterId && checks[a].pollId == checks[b].pollId
      ==> a == b
  }

  /** Foreign keys VoterCheck.VoterId -> Voter and VoterCheck.PollId -> Poll. */
  ghost predicate ChecksReference(polls: map<Id, Poll>, voters: map<Id, Voter>, checks: map<Id, VoterCheck>) {
    forall c :: c in checks ==> checks[c].pollId in polls && checks[c].voterId in voters
  }

  /** Each option's running tally equals the number of votes that reference it. */
  ghost predicate TalliesMatchVotes(options: map<Id, PollOption>, votes: map<Id, PollVote>) {
    forall o :: o in options ==> options[o].voteCount == |VotesFor(votes, o)|
  }

  /** No poll holds more votes than voter checks. */
  ghost predicate VotesWithinChecks(options: map<Id, PollOption>, votes: map<Id, PollVote>, checks: map<Id, VoterCheck>) {
    forall p :: |VotesOnPoll(options, votes, p)| <= |ChecksOnPoll(checks, p)|
  }

  /** Foreign key Poll.CreatedByEmail -> Moderator.Email. */
  ghost predicate PollCreatorsAreModerators(polls: map<Id, Poll>, moderators: map<Id, Moderator>) {
    forall p :: p in polls ==> polls[p].createdBy in ModeratorEmails(moderators)
  }

  /** Unique indexes on Moderator.Email, Voter.Email and Admin.Email. */
  ghost predicate ModeratorEmailsUnique(m: map<Id, Moderator>) {
    forall a, b :: a in m && b in m && m[a].email == m[b].email ==> a == b
  }
  ghost predicate VoterEmailsUnique(m: map<Id, Voter>) {
    forall a, b :: a in m && b in m && m[a].email == m[b].email ==> a == b
  }
  ghost predicate AdminEmailsUnique(m: map<Id, Admin>) {
    forall a, b :: a in m && b in m && m[a].email == m[b].email ==> a == b
  }

  /** Every moderator, voter and admin has a login account under its e-mail. */
  ghost predicate ModeratorsHaveUsers(m: map<Id, Moderator>, users: map<string, User>) {
    forall k :: k in m ==> m[k].email in users
  }
  ghost predicate VotersHaveUsers(m: map<Id, Voter>, users: map<string, User>) {
    forall k :: k in m ==> m[k].email in users
  }
  ghost predicate AdminsHaveUsers(m: map<Id, Admin>, users: map<string, User>) {
    forall k :: k in m ==> m[k].email in users
  }

  /** Foreign key VoterEmail.ModeratorId -> Moderator. */
  ghost predicate WhitelistOwnersExist(whitelist: map<string, VoterEmail>, moderators: map<Id, Moderator>) {
    forall e :: e in whitelist ==> whitelist[e].moderatorId in moderators
  }

  /** Foreign key Voter.ModeratorId -> Moderator. */
  ghost predicate VoterOwnersExist(voters: map<Id, Voter>, moderators: map<Id, Moderator>) {
    forall v :: v in voters ==> voters[v].moderatorId in moderators
  }

  /** Foreign key UserMessage.MessageId -> Message. */
  ghost predicate LinksReferenceMessages(messages: map<Id, Message>, inbox: map<LinkKey, UserMessage>) {
    forall k :: k in inbox ==> k.0 in messages
  }

  /** Unique index on RefreshToken.Token. */
  ghost predicate RefreshTokensUnique(tokens: map<Id, RefreshToken>) {
    forall a, b :: a in tokens && b in tokens && tokens[a].token == tokens[b].token ==> a == b
  }

  // ---------------------------------------------------------------------
  // The store's validity predicate

  /** The rules on polls, options, voter checks and votes. */
  ghost predicate VoteIntegrity(s: Store) {
    && OptionsBelongToPolls(s.polls, s.options)
    && OptionTextsUniquePerPoll(s.options)
    && VotesReferenceOptions(s.options, s.votes)
    && OneCheckPerVoterAndPoll(s.checks)
    && ChecksReference(s.polls, s.voters, s.checks)
    && TalliesMatchVotes(s.options, s.votes)
    && VotesWithinChecks(s.options, s.votes, s.checks)
  }

  /** The rules on accounts, whitelist entries and poll ownership. */
  ghost predicate AccountIntegrity(s: Store) {
    && PollCreatorsAreModerators(s.polls, s.moderators)
    && ModeratorEmailsUnique(s.moderators) && VoterEmailsUnique(s.voters) && AdminEmailsUnique(s.admins)
    && ModeratorsHaveUsers(s.moderators, s.users) && VotersHaveUsers(s.voters, s.users)
    && AdminsHaveUsers(s.admins, s.users)
    && WhitelistOwnersExist(s.whitelist, s.moderators) && VoterOwnersExist(s.voters, s.moderators)
  }

  ghost predicate Valid(s: Store) {
    && IdsAreKeys(s)
    && VoteIntegrity(s)
    && AccountIntegrity(s)
    && LinksReferenceMessages(s.messages, s.inbox)
    && RefreshTokensUnique(s.refreshTokens)
  }

  /** The store with no rows at all. */
  function EmptyStore(): (s: Store)
    ensures s.polls == map[] && s.users == map[] && s.audit == []
  {
    Store(map[], map[], map[], map[], map[], map[], map[], map[], map[], map[], map[], map[], map[], map[], [])
  }

  lemma EmptyStoreValid()
    ensures Valid(EmptyStore())
  {
    var s := EmptyStore();
    forall p ensures |VotesOnPoll(s.options, s.votes, p)| <= |ChecksOnPoll(s.checks, p)| {
      assert VotesOnPoll(s.options, s.votes, p) == {};
    }
  }

  // ---------------------------------------------------------------------
  // Lookups by a field other than the key (`FirstOrDefault` over a table)

  ghost predicate HasVoterWithEmail(voters: map<Id, Voter>, email: string) {
    exists v :: v in voters && voters[v].email == email
  }

  /** The voter registered under `email`; unique when voter e-mails are. */
  ghost function VoterWithEmail(voters: map<Id, Voter>, email: string): (v: Id)
    requires HasVoterWithEmail(voters, email)
    ensures v in voters && voters[v].email == email
  {
    var v :| v in voters && voters[v].email == email; v
  }

  ghost predicate HasModeratorWithEmail(moderators: map<Id, Moderator>, email: string) {
    exists m :: m in moderators && moderators[m].email == email
  }

  ghost function ModeratorWithEmail(moderators: map<Id, Moderator>, email: string): (m: Id)
    requires HasModeratorWithEmail(moderators, email)
    ensures m in moderators && moderators[m].email == email
  {
    var m :| m in moderators && moderators[m].email == email; m
  }

  /** Some voter check records that `voter` took part in `poll`. */
  ghost predicate HasChecked(checks: map<Id, VoterCheck>, voter: Id, poll: Id) {
    exists c :: c in checks && checks[c].voterId == voter && checks[c].pollId == poll
  }
}
